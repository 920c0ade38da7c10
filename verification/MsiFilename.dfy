/**
 The MSI filename as a channel: the server packs a daemon's configuration into the name of the
 download, and the installer's custom action unpacks it into installer properties.
 */
module MsiFilename {
  import opened Wrappers
  import opened Base64Url
  import opened PercentCode
  import opened Text
  import opened Modes
  import Decimal

  // ----- the configuration table -----

  datatype DaemonArgs = DaemonArgs(
    mode: Option<Mode>,
    name: Option<string>,
    instance: Option<string>,
    serverUrl: Option<string>,
    apiKey: Option<string>,
    port: Option<nat>,
    bindAddress: Option<string>,
    logLevel: Option<string>,
    logFile: Option<string>,
    heartbeat: Option<nat>,
    interfaces: Option<seq<string>>,
    allowSelfSigned: Option<bool>,
    acceptInvalidScan: Option<bool>)

  /** The configuration fields that have an MSI property. */
  datatype Field =
    ModeField | NameField | UrlField | PortField | AddrField | LogLevelField | LogFileField
    | HeartbeatField | InterfacesField | SelfSignedField | InvalidScanField

  function Key(f: Field): string {
    match f
    case ModeField => "mode"
    case NameField => "name"
    case UrlField => "url"
    case PortField => "port"
    case AddrField => "addr"
    case LogLevelField => "loglevel"
    case LogFileField => "logfile"
    case HeartbeatField => "heartbeat"
    case InterfacesField => "interfaces"
    case SelfSignedField => "allowselfsigned"
    case InvalidScanField => "acceptinvalidscan"
  }

  function Property(f: Field): string {
    match f
    case ModeField => "MODE"
    case NameField => "DAEMONNAME"
    case UrlField => "SERVERURL"
    case PortField => "LISTENPORT"
    case AddrField => "LISTENADDRESS"
    case LogLevelField => "LOGLEVEL"
    case LogFileField => "LOGFILE"
    case HeartbeatField => "HEARTBEATINTERVAL"
    case InterfacesField => "INTERFACES"
    case SelfSignedField => "ALLOWSELFSIGNEDCERTS"
    case InvalidScanField => "ACCEPTINVALIDSCANCERTS"
  }

  /** A row of the install table; a field of `None` never reaches the MSI. */
  datatype Row = Row(field: Option<Field>, value: Option<string>)

  function RenderMode(m: Mode): string {
    match m case DaemonPoll => "daemon_poll" case ServerPoll => "server_poll"
  }

  function RenderBool(b: bool): string {
    if b then "true" else "false"
  }

  function Mapped<A>(o: Option<A>, f: A -> string): Option<string> {
    match o case None => None case Some(a) => Some(f(a))
  }

  /** The rows in the order the installer is given them; `instance` and the api key have no MSI key. */
  function Table(a: DaemonArgs): seq<Row> {
    [Row(Some(ModeField), Mapped(a.mode, RenderMode)),
     Row(Some(NameField), a.name),
     Row(None, a.instance),
     Row(Some(UrlField), a.serverUrl),
     Row(None, a.apiKey),
     Row(Some(PortField), Mapped(a.port, Decimal.ToString)),
     Row(Some(AddrField), a.bindAddress),
     Row(Some(LogLevelField), a.logLevel),
     Row(Some(LogFileField), a.logFile),
     Row(Some(HeartbeatField), Mapped(a.heartbeat, Decimal.ToString)),
     Row(Some(InterfacesField),
         if a.interfaces.Some? && a.interfaces.value != [] then Some(Join(a.interfaces.value, ',')) else None),
     Row(Some(SelfSignedField), Mapped(a.allowSelfSigned, RenderBool)),
     Row(Some(InvalidScanField), Mapped(a.acceptInvalidScan, RenderBool))]
  }

  datatype Pair = Pair(field: Field, value: string)

  /** The set rows that have an MSI key. */
  function MsiPairs(rows: seq<Row>): seq<Pair> {
    if rows == [] then []
    else
      var last := rows[|rows| - 1];
      MsiPairs(rows[..|rows| - 1])
      + if last.field.Some? && last.value.Some? then [Pair(last.field.value, last.value.value)] else []
  }

  // ----- the server's side -----

  const PREFIX := "scanopy-daemon-"
  const SUFFIX := ".msi"
  const MAX_NAME: nat := 255

  /** The longest query whose base64 form still fits. */
  const BUDGET: nat := (MAX_NAME - |PREFIX| - |SUFFIX|) / 4 * 3

  function Encoded(p: Pair): string {
    Key(p.field) + "=" + Escape(p.value)
  }

  function EncodedAll(ps: seq<Pair>): (ss: seq<string>)
    ensures |ss| == |ps|
    ensures forall i :: 0 <= i < |ps| ==> ss[i] == Encoded(ps[i])
  {
    if ps == [] then [] else EncodedAll(ps[..|ps| - 1]) + [Encoded(ps[|ps| - 1])]
  }

  function Query(ps: seq<Pair>): string {
    Join(EncodedAll(ps), '&')
  }

  predicate FitsAfter(query: string, p: Pair) {
    var separator := if query != "" then 1 else 0;
    |query| + separator + |Encoded(p)| <= BUDGET
  }

  predicate Fits(kept: seq<Pair>, p: Pair) {
    FitsAfter(Query(kept), p)
  }

  /** The pairs that fit, taken greedily in order. */
  function Kept(ps: seq<Pair>): seq<Pair> {
    if ps == [] then []
    else
      var kept := Kept(ps[..|ps| - 1]);
      if Fits(kept, ps[|ps| - 1]) then kept + [ps[|ps| - 1]] else kept
  }

  function Appended(query: string, encoded: string): string {
    if query == "" then encoded else query + "&" + encoded
  }

  function Omitted(ps: seq<Pair>): seq<string> {
    if ps == [] then []
    else
      var front, last := ps[..|ps| - 1], ps[|ps| - 1];
      Omitted(front) + if Fits(Kept(front), last) then [] else [Key(last.field)]
  }

  lemma EncodedSnoc(ps: seq<Pair>, p: Pair)
    ensures EncodedAll(ps + [p]) == EncodedAll(ps) + [Encoded(p)]
  {
    assert (ps + [p])[..|ps|] == ps;
  }

  lemma QueryNonEmpty(ps: seq<Pair>)
    ensures ps == [] <==> Query(ps) == ""
  {
    if ps != [] {
      JoinNonEmpty(EncodedAll(ps), '&');
    }
  }

  lemma QuerySnoc(ps: seq<Pair>, p: Pair)
    ensures Query(ps + [p]) == Appended(Query(ps), Encoded(p))
  {
    EncodedSnoc(ps, p);
    JoinSnoc(EncodedAll(ps), Encoded(p), '&');
    QueryNonEmpty(ps);
  }

  /** One more pair, kept or omitted. */
  lemma OneMore(before: seq<Pair>, p: Pair)
    ensures Fits(Kept(before), p) ==>
              && Query(Kept(before + [p])) == Appended(Query(Kept(before)), Encoded(p))
              && Omitted(before + [p]) == Omitted(before)
    ensures !Fits(Kept(before), p) ==>
              && Query(Kept(before + [p])) == Query(Kept(before))
              && Omitted(before + [p]) == Omitted(before) + [Key(p.field)]
  {
    assert (before + [p])[..|before|] == before;
    QuerySnoc(Kept(before), p);
  }

  lemma OneMoreRow(rows: seq<Row>, i: nat)
    requires i < |rows|
    ensures MsiPairs(rows[..i + 1]) == MsiPairs(rows[..i])
              + if rows[i].field.Some? && rows[i].value.Some?
                then [Pair(rows[i].field.value, rows[i].value.value)] else []
  {
    assert rows[..i + 1][..i] == rows[..i];
  }

  /** The query so far and the keys left out, after one more pair. */
  function WithPair(query: string, omitted: seq<string>, p: Pair): (string, seq<string>) {
    if FitsAfter(query, p) then (Appended(query, Encoded(p)), omitted) else (query, omitted + [Key(p.field)])
  }

  method MsiConfigQuery(rows: seq<Row>) returns (query: string, omitted: seq<string>)
    ensures query == Query(Kept(MsiPairs(rows))) && omitted == Omitted(MsiPairs(rows))
  {
    query, omitted := "", [];
    ghost var pairs: seq<Pair> := [];
    for i := 0 to |rows|
      invariant pairs == MsiPairs(rows[..i])
      invariant query == Query(Kept(pairs)) && omitted == Omitted(pairs)
    {
      OneMoreRow(rows, i);
      var row := rows[i];
      if row.field.Some? && row.value.Some? {
        var p := Pair(row.field.value, row.value.value);
        OneMore(pairs, p);
        var next := WithPair(query, omitted, p);
        query, omitted := next.0, next.1;
        pairs := pairs + [p];
      }
    }
    assert rows[..|rows|] == rows;
  }

  predicate AsciiOnly(s: string) {
    forall i :: 0 <= i < |s| ==> IsAscii(s[i])
  }

  /** The bytes of an ASCII string. */
  function Codes(s: string): (bs: seq<Byte>)
    requires AsciiOnly(s)
    ensures |bs| == |s|
    ensures forall i :: 0 <= i < |s| ==> bs[i] == s[i] as int
  {
    if s == "" then []
    else
      var b: Byte := s[0] as int;
      [b] + Codes(s[1..])
  }

  lemma KeyClean(f: Field)
    ensures Clean(Key(f)) && Key(f) != ""
  {
  }

  lemma EncodedParts(p: Pair)
    ensures '&' !in Encoded(p)
    ensures AsciiOnly(Encoded(p))
    ensures forall i :: 0 <= i < |Key(p.field)| ==> Encoded(p)[i] != '='
  {
    KeyClean(p.field);
    EscapeClean(p.value);
  }

  lemma {:induction false} JoinAscii(ss: seq<string>, sep: char)
    requires IsAscii(sep) && forall i :: 0 <= i < |ss| ==> AsciiOnly(ss[i])
    ensures AsciiOnly(Join(ss, sep))
  {
    if |ss| > 1 {
      JoinAscii(ss[..|ss| - 1], sep);
    }
  }

  lemma QueryAscii(ps: seq<Pair>)
    ensures AsciiOnly(Query(ps))
  {
    forall i | 0 <= i < |ps|
      ensures AsciiOnly(EncodedAll(ps)[i])
    {
      EncodedParts(ps[i]);
    }
    JoinAscii(EncodedAll(ps), '&');
  }

  function FilenameOf(rows: seq<Row>): string
  {
    var query := Query(Kept(MsiPairs(rows)));
    QueryAscii(Kept(MsiPairs(rows)));
    PREFIX + Encode(Codes(query)) + SUFFIX
  }

  // ----- the installer's side -----

  predicate IsSlash(c: char) {
    c == '/' || c == '\\'
  }

  predicate IsLineTerminator(c: char) {
    c == '\n' || c == '\r' || c as int == 0x2028 || c as int == 0x2029
  }

  /** What the directory pattern matches: up to the last slash that no line terminator precedes. */
  function DirectoryLength(s: string): (n: nat)
    ensures n <= |s|
  {
    if s == "" || IsLineTerminator(s[0]) then 0
    else
      var rest := DirectoryLength(s[1..]);
      if rest > 0 then rest + 1 else if IsSlash(s[0]) then 1 else 0
  }

  function StripDirectory(s: string): string {
    s[DirectoryLength(s)..]
  }

  predicate EndsInMsi(s: string) {
    var n := |s|;
    n >= 4 && s[n - 4] == '.' && Lower(s[n - 3]) == 'm' && Lower(s[n - 2]) == 's' && Lower(s[n - 1]) == 'i'
  }

  function StripMsi(s: string): string {
    if EndsInMsi(s) then s[..|s| - 4] else s
  }

  /** The installer property a query key stands for. */
  function Lookup(key: string): Option<string> {
    if key == "mode" then Some("MODE")
    else if key == "name" then Some("DAEMONNAME")
    else if key == "url" then Some("SERVERURL")
    else if key == "addr" then Some("LISTENADDRESS")
    else if key == "port" then Some("LISTENPORT")
    else if key == "loglevel" then Some("LOGLEVEL")
    else if key == "logfile" then Some("LOGFILE")
    else if key == "interfaces" then Some("INTERFACES")
    else if key == "acceptinvalidscan" then Some("ACCEPTINVALIDSCANCERTS")
    else if key == "allowselfsigned" then Some("ALLOWSELFSIGNEDCERTS")
    else if key == "heartbeat" then Some("HEARTBEATINTERVAL")
    else None
  }

  /** The position of the first equals sign, or the length. */
  function KeyLength(s: string): (n: nat)
    ensures n <= |s|
    ensures n < |s| ==> s[n] == '='
    ensures forall i :: 0 <= i < n ==> s[i] != '='
  {
    if s == "" || s[0] == '=' then 0 else KeyLength(s[1..]) + 1
  }

  type Session = map<string, string>

  function Assign(m: Session, pair: string): Session {
    var eq := KeyLength(pair);
    if eq == |pair| then m
    else
      match Lookup(pair[..eq])
      case None => m
      case Some(prop) =>
        var value := Unescape(pair[eq + 1..]);
        if value == "" then m else m[prop := value]
  }

  function AssignAll(pairs: seq<string>): Session {
    if pairs == [] then map[] else Assign(AssignAll(pairs[..|pairs| - 1]), pairs[|pairs| - 1])
  }

  function Parsed(dbPath: string): Session {
    var base := StripMsi(StripDirectory(dbPath));
    if PREFIX <= base then AssignAll(Split(Chars(Decoded(base[|PREFIX|..])), '&')) else map[]
  }

  method AssignPairs(pairs: seq<string>) returns (props: Session)
    ensures props == AssignAll(pairs)
  {
    props := map[];
    for i := 0 to |pairs|
      invariant props == AssignAll(pairs[..i])
    {
      assert pairs[..i + 1][..i] == pairs[..i];
      var eq := KeyLength(pairs[i]);
      if eq == |pairs[i]| {
        continue;
      }
      var prop := Lookup(pairs[i][..eq]);
      if prop.None? {
        continue;
      }
      var value := PercentDecode(pairs[i][eq + 1..]);
      if value != "" {
        props := props[prop.value := value];
      }
    }
    assert pairs[..|pairs|] == pairs;
  }

  method ParseFilename(dbPath: string) returns (props: Session)
    ensures props == Parsed(dbPath)
  {
    props := map[];
    if dbPath == "" {
      return;
    }
    var base := StripMsi(StripDirectory(dbPath));
    if |base| < |PREFIX| || base[..|PREFIX|] != PREFIX {
      return;
    }
    var bytes := Decode(base[|PREFIX|..]);
    props := AssignPairs(Split(Chars(bytes), '&'));
  }

  // ----- what any path can do -----

  /** The suffix is taken off in any mixture of cases, and nothing else is. */
  lemma StripMsiExact(stem: string, m: char, s: char, i: char)
    requires (m == 'm' || m == 'M') && (s == 's' || s == 'S') && (i == 'i' || i == 'I')
    ensures StripMsi(stem + ['.', m, s, i]) == stem
  {
    var all := stem + ['.', m, s, i];
    assert all[..|stem|] == stem;
  }

  lemma StripMsiElse(s: string)
    requires |s| < 4 || s[|s| - 4] != '.' || s[|s| - 3] !in "mM" || s[|s| - 2] !in "sS" || s[|s| - 1] !in "iI"
    ensures StripMsi(s) == s
  {
  }

  lemma LookupRange(key: string)
    ensures Lookup(key).Some? ==>
              Lookup(key).value in {"MODE", "DAEMONNAME", "SERVERURL", "LISTENADDRESS", "LISTENPORT", "LOGLEVEL",
                                    "LOGFILE", "INTERFACES", "ACCEPTINVALIDSCANCERTS", "ALLOWSELFSIGNEDCERTS",
                                    "HEARTBEATINTERVAL"}
  {
  }

  /** A pair that sets a property, with what. */
  predicate Gives(pair: string, property: string, value: string) {
    var eq := KeyLength(pair);
    eq < |pair| && Lookup(pair[..eq]) == Some(property) && value == Unescape(pair[eq + 1..]) && value != ""
  }

  function Giving(property: string): (string, string) -> bool {
    (pair, value) => Gives(pair, property, value)
  }

  function At(props: Session, property: string): Option<string> {
    if property in props then Some(props[property]) else None
  }

  /** `found` is what the last giving pair, pair `k`, gives; none gives anything if there is none. */
  ghost predicate LastGives(gives: (string, string) -> bool, pairs: seq<string>, k: nat, found: Option<string>) {
    match found
    case None => forall m, v :: 0 <= m < |pairs| ==> !gives(pairs[m], v)
    case Some(value) =>
      k < |pairs| && gives(pairs[k], value) && forall m, v :: k < m < |pairs| ==> !gives(pairs[m], v)
  }

  lemma LastGivesSnoc(gives: (string, string) -> bool, pairs: seq<string>, k: nat, was: Option<string>,
                      p: string, now: Option<string>) returns (at: nat)
    requires LastGives(gives, pairs, k, was)
    requires (now.Some? && gives(p, now.value)) || (now == was && forall v :: !gives(p, v))
    ensures LastGives(gives, pairs + [p], at, now)
  {
    at := if now.Some? && gives(p, now.value) then |pairs| else k;
  }

  lemma AssignGives(m: Session, pair: string, property: string)
    ensures
      var was, now := At(m, property), At(Assign(m, pair), property);
      || (now.Some? && Giving(property)(pair, now.value))
      || (now == was && forall v :: !Giving(property)(pair, v))
  {
  }

  /** A property is set exactly when some pair gives it a value, and then to what the last such pair gives. */
  lemma {:induction false} LastGivenWins(pairs: seq<string>, property: string) returns (k: nat)
    ensures LastGives(Giving(property), pairs, k, At(AssignAll(pairs), property))
  {
    k := 0;
    if pairs != [] {
      var n := |pairs| - 1;
      var front, last := pairs[..n], pairs[n];
      k := LastGivenWins(front, property);
      AssignGives(AssignAll(front), last, property);
      k := LastGivesSnoc(
        Giving(property), front, k, At(AssignAll(front), property), last, At(AssignAll(pairs), property));
      assert pairs == front + [last];
    }
  }

  /** Whatever the path says, no property outside the eleven is ever set. */
  lemma OnlyKnownProperties(dbPath: string, property: string)
    requires property in Parsed(dbPath)
    ensures property in {"MODE", "DAEMONNAME", "SERVERURL", "LISTENADDRESS", "LISTENPORT", "LOGLEVEL", "LOGFILE",
                         "INTERFACES", "ACCEPTINVALIDSCANCERTS", "ALLOWSELFSIGNEDCERTS", "HEARTBEATINTERVAL"}
  {
    var base := StripMsi(StripDirectory(dbPath));
    var pairs := Split(Chars(Decoded(base[|PREFIX|..])), '&');
    var k := LastGivenWins(pairs, property);
    LookupRange(pairs[k][..KeyLength(pairs[k])]);
  }

  // ----- there and back -----

  /** The first `n` characters are a directory: on one line, and ending in a slash or a backslash. */
  predicate IsDirectory(s: string, n: nat) {
    && 0 < n <= |s| && s[n - 1] in "/\\"
    && forall i :: 0 <= i < n ==> s[i] !in "\n\r\U{2028}\U{2029}"
  }

  lemma DirectoryCons(s: string, n: nat)
    requires s != ""
    ensures n > 0 ==> (IsDirectory(s, n + 1) <==> s[0] !in "\n\r\U{2028}\U{2029}" && IsDirectory(s[1..], n))
    ensures IsDirectory(s, 1) <==> s[0] in "/\\"
  {
    if n > 0 {
      assert n < |s| ==> s[n] == s[1..][n - 1];
      assert forall i :: 0 <= i < |s| - 1 ==> s[1..][i] == s[i + 1];
    }
  }

  lemma {:induction false} DirectoryReaches(s: string, n: nat)
    requires IsDirectory(s, n)
    ensures n <= DirectoryLength(s)
  {
    if n > 1 {
      DirectoryCons(s, n - 1);
      DirectoryReaches(s[1..], n - 1);
    }
  }

  lemma {:induction false} DirectoryEnds(s: string)
    requires DirectoryLength(s) > 0
    ensures IsDirectory(s, DirectoryLength(s))
  {
    var n := DirectoryLength(s[1..]);
    DirectoryCons(s, n);
    if n > 0 {
      DirectoryEnds(s[1..]);
    }
  }

  /** What is stripped is the longest directory at the front of the path, if any. */
  lemma DirectoryExact(s: string, n: nat)
    ensures DirectoryLength(s) == n <==>
            (n == 0 || IsDirectory(s, n)) && forall m :: n < m <= |s| ==> !IsDirectory(s, m)
  {
    forall m: nat | IsDirectory(s, m)
      ensures m <= DirectoryLength(s)
    {
      DirectoryReaches(s, m);
    }
    if DirectoryLength(s) > 0 {
      DirectoryEnds(s);
    }
  }

  lemma {:induction false} NoSlashNoDirectory(s: string)
    requires forall i :: 0 <= i < |s| ==> !IsSlash(s[i])
    ensures DirectoryLength(s) == 0
  {
    if s != "" {
      NoSlashNoDirectory(s[1..]);
    }
  }

  lemma {:induction false} DirectoryStripped(dir: string, file: string)
    requires dir == "" || IsSlash(dir[|dir| - 1])
    requires forall i :: 0 <= i < |dir| ==> !IsLineTerminator(dir[i])
    requires forall i :: 0 <= i < |file| ==> !IsSlash(file[i])
    ensures DirectoryLength(dir + file) == |dir|
  {
    if dir == "" {
      assert dir + file == file;
      NoSlashNoDirectory(file);
    } else {
      assert (dir + file)[1..] == dir[1..] + file;
      DirectoryStripped(dir[1..], file);
    }
  }

  lemma LookupKey(f: Field)
    ensures Lookup(Key(f)) == Some(Property(f))
  {
  }

  lemma AssignEncoded(m: Session, p: Pair)
    ensures Assign(m, Encoded(p)) == if Seen(p.value) == "" then m else m[Property(p.field) := Seen(p.value)]
  {
    var s, n := Encoded(p), |Key(p.field)|;
    EncodedParts(p);
    assert s[n] == '=';
    assert s[..n] == Key(p.field) && s[n + 1..] == Escape(p.value);
    LookupKey(p.field);
    UnescapeEscape(p.value);
  }

  /** What a list of pairs should set. */
  function Expected(ps: seq<Pair>): Session {
    if ps == [] then map[]
    else
      var m, last := Expected(ps[..|ps| - 1]), ps[|ps| - 1];
      if last.value == "" then m else m[Property(last.field) := Seen(last.value)]
  }

  lemma {:induction false} AssignAllEncoded(ps: seq<Pair>)
    ensures AssignAll(EncodedAll(ps)) == Expected(ps)
  {
    if ps != [] {
      var front, last := ps[..|ps| - 1], ps[|ps| - 1];
      AssignAllEncoded(front);
      assert EncodedAll(ps)[..|ps| - 1] == EncodedAll(front);
      AssignEncoded(Expected(front), last);
    }
  }

  lemma QueryAssigns(ps: seq<Pair>)
    ensures AssignAll(Split(Query(ps), '&')) == Expected(ps)
  {
    if ps == [] {
      assert Split("", '&') == [""];
      assert [""][..0] == [];
    } else {
      forall i | 0 <= i < |EncodedAll(ps)|
        ensures '&' !in EncodedAll(ps)[i]
      {
        EncodedParts(ps[i]);
      }
      SplitJoin(EncodedAll(ps), '&');
      AssignAllEncoded(ps);
    }
  }

  lemma CharsOfCodes(s: string)
    requires AsciiOnly(s)
    ensures Chars(Codes(s)) == s
  {
    forall i | 0 <= i < |s|
      ensures Chars(Codes(s))[i] == s[i]
    {
      CharsAt(Codes(s), i);
    }
  }

  predicate NoSlash(s: string) {
    forall i :: 0 <= i < |s| ==> !IsSlash(s[i])
  }

  lemma EncodeHasNoSlash(b: seq<Byte>)
    ensures NoSlash(Encode(b))
  {
  }

  lemma SuffixStripped(stem: string)
    ensures StripMsi(stem + SUFFIX) == stem
  {
    var s := stem + SUFFIX;
    assert s[|stem|] == '.' && s[|stem| + 1] == 'm' && s[|stem| + 2] == 's' && s[|stem| + 3] == 'i';
    assert s[..|stem|] == stem;
  }

  lemma ConstantsHaveNoSlash()
    ensures NoSlash(PREFIX) && NoSlash(SUFFIX)
  {
  }

  lemma JoinedHasNoSlash(a: string, b: string)
    requires NoSlash(a) && NoSlash(b)
    ensures NoSlash(a + b)
  {
  }

  lemma FileStripped(dir: string, file: string)
    requires dir == "" || IsSlash(dir[|dir| - 1])
    requires forall i :: 0 <= i < |dir| ==> !IsLineTerminator(dir[i])
    requires NoSlash(file)
    ensures StripDirectory(dir + file) == file
  {
    DirectoryStripped(dir, file);
  }

  lemma FilenameStripped(dir: string, blob: string)
    requires dir == "" || IsSlash(dir[|dir| - 1])
    requires forall i :: 0 <= i < |dir| ==> !IsLineTerminator(dir[i])
    requires NoSlash(blob)
    ensures StripMsi(StripDirectory(dir + (PREFIX + blob + SUFFIX))) == PREFIX + blob
  {
    ConstantsHaveNoSlash();
    JoinedHasNoSlash(PREFIX, blob);
    JoinedHasNoSlash(PREFIX + blob, SUFFIX);
    FileStripped(dir, PREFIX + blob + SUFFIX);
    SuffixStripped(PREFIX + blob);
  }

  lemma PrefixStripped(a: string, b: string)
    ensures a <= a + b && (a + b)[|a|..] == b
  {
  }

  /**
   The full round trip, for every configuration and every directory the download may be run from: the
   installer sets exactly the properties of the pairs that fit, each to its value as seen.
   */
  lemma FilenameRoundTrip(dir: string, rows: seq<Row>)
    requires dir == "" || IsSlash(dir[|dir| - 1])
    requires forall i :: 0 <= i < |dir| ==> !IsLineTerminator(dir[i])
    ensures Parsed(dir + FilenameOf(rows)) == Expected(Kept(MsiPairs(rows)))
  {
    var kept := Kept(MsiPairs(rows));
    var query := Query(kept);
    QueryAscii(kept);
    var blob := Encode(Codes(query));
    EncodeHasNoSlash(Codes(query));
    FilenameStripped(dir, blob);
    PrefixStripped(PREFIX, blob);
    RoundTrip(Codes(query));
    CharsOfCodes(query);
    QueryAssigns(kept);
  }

  // ----- what the expectation says, field by field -----

  ghost predicate OncePerField(ps: seq<Pair>) {
    forall i, j :: 0 <= i < j < |ps| ==> ps[i].field != ps[j].field
  }

  lemma PropertyInjective(f: Field, g: Field)
    requires Property(f) == Property(g)
    ensures f == g
  {
  }

  ghost predicate Sets(ps: seq<Pair>, f: Field, v: string) {
    v != "" && Pair(f, v) in ps
  }

  ghost predicate ExactAt(m: Session, ps: seq<Pair>, f: Field) {
    && (Property(f) in m <==> exists v :: Sets(ps, f, v))
    && forall v :: Sets(ps, f, v) ==> Property(f) in m && m[Property(f)] == Seen(v)
  }

  lemma SetsSnoc(front: seq<Pair>, last: Pair, f: Field, v: string)
    ensures Sets(front + [last], f, v) <==> Sets(front, f, v) || (v != "" && last == Pair(f, v))
  {
  }

  lemma ExactSameField(m: Session, front: seq<Pair>, last: Pair)
    requires ExactAt(m, front, last.field) && forall v :: !Sets(front, last.field, v)
    ensures
      var next := if last.value == "" then m else m[Property(last.field) := Seen(last.value)];
      ExactAt(next, front + [last], last.field)
  {
    forall v
      ensures Sets(front + [last], last.field, v) <==> v != "" && v == last.value
    {
      SetsSnoc(front, last, last.field, v);
    }
    assert last.value != "" ==> Sets(front + [last], last.field, last.value);
  }

  lemma ExactOtherField(m: Session, front: seq<Pair>, last: Pair, f: Field)
    requires ExactAt(m, front, f) && f != last.field
    ensures ExactAt(if last.value == "" then m else m[Property(last.field) := Seen(last.value)], front + [last], f)
  {
    if Property(f) == Property(last.field) {
      PropertyInjective(f, last.field);
    }
    forall v
      ensures Sets(front + [last], f, v) <==> Sets(front, f, v)
    {
      SetsSnoc(front, last, f, v);
    }
  }

  lemma {:induction false} ExpectedExact(ps: seq<Pair>, f: Field)
    requires OncePerField(ps)
    ensures ExactAt(Expected(ps), ps, f)
  {
    if ps != [] {
      var front, last := ps[..|ps| - 1], ps[|ps| - 1];
      assert ps == front + [last];
      ExpectedExact(front, f);
      if last.field == f {
        forall v
          ensures !Sets(front, f, v)
        {
        }
        ExactSameField(Expected(front), front, last);
      } else {
        ExactOtherField(Expected(front), front, last, f);
      }
    }
  }

  lemma {:induction false} PairsFromRows(rows: seq<Row>, k: nat) returns (r: nat)
    requires k < |MsiPairs(rows)|
    ensures r < |rows| && rows[r] == Row(Some(MsiPairs(rows)[k].field), Some(MsiPairs(rows)[k].value))
  {
    var n := |rows| - 1;
    if k < |MsiPairs(rows[..n])| {
      r := PairsFromRows(rows[..n], k);
    } else {
      r := n;
    }
  }

  lemma {:induction false} RowIsPair(rows: seq<Row>, r: nat) returns (k: nat)
    requires r < |rows| && rows[r].field.Some? && rows[r].value.Some?
    ensures k < |MsiPairs(rows)| && MsiPairs(rows)[k] == Pair(rows[r].field.value, rows[r].value.value)
  {
    var n := |rows| - 1;
    if r < n {
      k := RowIsPair(rows[..n], r);
    } else {
      k := |MsiPairs(rows[..n])|;
    }
  }

  ghost predicate RowsOncePerField(rows: seq<Row>) {
    forall i, j :: 0 <= i < j < |rows| && rows[i].field.Some? && rows[j].field.Some? ==> rows[i].field != rows[j].field
  }

  lemma {:induction false} PairsOncePerField(rows: seq<Row>)
    requires RowsOncePerField(rows)
    ensures OncePerField(MsiPairs(rows))
  {
    if rows != [] {
      var n := |rows| - 1;
      var front := rows[..n];
      PairsOncePerField(front);
      if rows[n].field.Some? && rows[n].value.Some? {
        forall k | 0 <= k < |MsiPairs(front)|
          ensures MsiPairs(front)[k].field != rows[n].field.value
        {
          var r := PairsFromRows(front, k);
        }
      }
    }
  }

  lemma TableRowsOnce(a: DaemonArgs)
    ensures RowsOncePerField(Table(a))
  {
  }

  lemma {:induction false} KeptOncePerField(ps: seq<Pair>)
    requires OncePerField(ps)
    ensures OncePerField(Kept(ps))
    ensures forall p :: p in Kept(ps) ==> p in ps
  {
    if ps != [] {
      var front, last := ps[..|ps| - 1], ps[|ps| - 1];
      KeptOncePerField(front);
      var kept := Kept(front);
      forall i | 0 <= i < |kept|
        ensures kept[i].field != last.field
      {
        assert kept[i] in front;
      }
    }
  }

  /** A directory, up to and including its last slash. */
  ghost predicate Directory(dir: string) {
    && (dir == "" || IsSlash(dir[|dir| - 1]))
    && forall i :: 0 <= i < |dir| ==> !IsLineTerminator(dir[i])
  }

  ghost predicate Delivers(props: Session, kept: seq<Pair>, f: Field) {
    && (Property(f) in props <==> exists v :: Sets(kept, f, v))
    && forall v :: Sets(kept, f, v) ==> Property(f) in props && (props[Property(f)] == v <==> Plain(v))
  }

  /**
   For every configuration: a kept field with a non-empty value sets its property, to that very value
   if the value is plain; and no property is set for any other reason.
   */
  lemma PropertiesExact(dir: string, rows: seq<Row>, f: Field)
    requires Directory(dir) && RowsOncePerField(rows)
    ensures Delivers(Parsed(dir + FilenameOf(rows)), Kept(MsiPairs(rows)), f)
  {
    var kept := Kept(MsiPairs(rows));
    FilenameRoundTrip(dir, rows);
    PairsOncePerField(rows);
    KeptOncePerField(MsiPairs(rows));
    ExpectedExact(kept, f);
    forall v
      ensures Seen(v) == v <==> Plain(v)
    {
      UnescapeEscape(v);
      ValueRoundTripIff(v);
    }
  }

  // ----- limits -----

  lemma {:induction false} KeptWithinBudget(ps: seq<Pair>)
    ensures |Query(Kept(ps))| <= BUDGET
  {
    if ps != [] {
      var front, last := ps[..|ps| - 1], ps[|ps| - 1];
      KeptWithinBudget(front);
    }
  }

  /** However large the configuration, the name fits a file system. */
  lemma FilenameFits(rows: seq<Row>)
    ensures |FilenameOf(rows)| <= 255
    ensures exists query: seq<Byte> :: FilenameOf(rows) == "scanopy-daemon-" + Encode(query) + ".msi"
  {
    KeptWithinBudget(MsiPairs(rows));
    QueryAscii(Kept(MsiPairs(rows)));
  }

  lemma {:induction false} SamePairs(s: seq<Row>, t: seq<Row>)
    requires |s| == |t|
    requires forall n :: 0 <= n < |s| ==> s[n] == t[n] || (s[n].field.None? && t[n].field.None?)
    ensures MsiPairs(s) == MsiPairs(t)
  {
    if s != [] {
      SamePairs(s[..|s| - 1], t[..|t| - 1]);
    }
  }

  /** A file of any other name says nothing to the installer, wherever it lies. */
  lemma OtherNameSetsNothing(dir: string, file: string)
    requires Directory(dir) && NoSlash(file) && !("scanopy-daemon-" <= file)
    ensures Parsed(dir + file) == map[]
  {
    FileStripped(dir, file);
    assert StripMsi(file) <= file;
  }

  /** The budget is exactly what fits: a query makes a name of at most 255 characters if and only if it is within it. */
  lemma BudgetIsTight(query: seq<Byte>)
    ensures |"scanopy-daemon-" + Encode(query) + ".msi"| <= 255 <==> |query| <= BUDGET
  {
    assert 4 * |query| <= 3 * |Encode(query)| <= 4 * |query| + 2;
  }

  /** The filename does not depend on the api key, nor on the install selector. */
  lemma ApiKeyNeverEncoded(a: DaemonArgs, key: Option<string>, instance: Option<string>)
    ensures FilenameOf(Table(a.(apiKey := key, instance := instance))) == FilenameOf(Table(a))
  {
    var s, t := Table(a), Table(a.(apiKey := key, instance := instance));
    forall n | 0 <= n < 13
      ensures s[n] == t[n] || (s[n].field.None? && t[n].field.None?)
    {
    }
    SamePairs(s, t);
  }
}
