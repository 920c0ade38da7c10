/** What the installer is told, field by field of the daemon's configuration and in the installer's own names. */
module MsiFields {
  import opened Wrappers
  import opened Modes
  import opened Text
  import opened PercentCode
  import opened MsiFilename
  import opened MsiBudget
  import Decimal

  // ----- what it means to arrive -----

  /** The property is set to the value as the installer sees it, or left alone if there is none or an empty one. */
  ghost predicate Carries(props: Session, property: string, value: Option<string>) {
    if value.Some? && value.value != "" then property in props && props[property] == Seen(value.value)
    else property !in props
  }

  lemma UnsetRow(rows: seq<Row>, r: nat)
    requires RowsOncePerField(rows) && r < |rows| && rows[r].field.Some? && rows[r].value == None
    ensures forall k :: 0 <= k < |MsiPairs(rows)| ==> MsiPairs(rows)[k].field != rows[r].field.value
  {
    forall k | 0 <= k < |MsiPairs(rows)|
      ensures MsiPairs(rows)[k].field != rows[r].field.value
    {
      var q := PairsFromRows(rows, k);
      assert q < r || q > r || q == r;
    }
  }

  lemma SeenValue(dir: string, rows: seq<Row>, k: nat)
    requires Directory(dir) && RowsOncePerField(rows) && k < |MsiPairs(rows)|
    requires Property(MsiPairs(rows)[k].field) in Parsed(dir + FilenameOf(rows))
    ensures Parsed(dir + FilenameOf(rows))[Property(MsiPairs(rows)[k].field)] == Seen(MsiPairs(rows)[k].value)
  {
    var ps := MsiPairs(rows);
    FilenameRoundTrip(dir, rows);
    PairsOncePerField(rows);
    KeptOncePerField(ps);
    ExpectedExact(Kept(ps), ps[k].field);
    var v :| Sets(Kept(ps), ps[k].field, v);
    KeptSets(ps, k);
  }

  /** Within the budget every row reaches its property. */
  lemma RowCarries(dir: string, rows: seq<Row>, r: nat)
    requires Directory(dir) && RowsOncePerField(rows) && |Query(MsiPairs(rows))| <= BUDGET
    requires r < |rows| && rows[r].field.Some?
    ensures Carries(Parsed(dir + FilenameOf(rows)), Property(rows[r].field.value), rows[r].value)
  {
    if rows[r].value.None? {
      UnsetRow(rows, r);
      UnsetStaysUnset(dir, rows, rows[r].field.value);
    } else {
      var k := RowIsPair(rows, r);
      FieldArrivesIff(dir, rows, k);
      RoomForValuesIff(MsiPairs(rows));
      if rows[r].value.value != "" {
        SeenValue(dir, rows, k);
      }
    }
  }

  /** Every row with a property reaches it. */
  ghost predicate AllRows(props: Session, rows: seq<Row>) {
    forall r :: 0 <= r < |rows| && rows[r].field.Some? ==> Carries(props, Property(rows[r].field.value), rows[r].value)
  }

  lemma RowsCarried(dir: string, rows: seq<Row>)
    requires Directory(dir) && RowsOncePerField(rows) && |Query(MsiPairs(rows))| <= BUDGET
    ensures AllRows(Parsed(dir + FilenameOf(rows)), rows)
  {
    forall r | 0 <= r < |rows| && rows[r].field.Some?
      ensures Carries(Parsed(dir + FilenameOf(rows)), Property(rows[r].field.value), rows[r].value)
    {
      RowCarries(dir, rows, r);
    }
  }

  // ----- field by field -----

  lemma SeenPlain(v: string)
    requires Plain(v)
    ensures Seen(v) == v
  {
    UnescapeEscape(v);
    ValueRoundTripIff(v);
  }

  lemma {:induction false} DigitsArePlain(n: nat)
    ensures Plain(Decimal.ToString(n))
  {
    var s := Decimal.ToString(n);
    forall i | 0 <= i < |s|
      ensures IsAscii(s[i]) && s[i] != '+'
    {
      assert Decimal.IsDigit(s[i]);
    }
  }

  /** A number arrives as digits that read as it. */
  ghost predicate CarriesNumber(props: Session, property: string, n: Option<nat>) {
    if n.Some?
    then
      && property in props && props[property] != ""
      && Decimal.AllDigits(props[property]) && Decimal.Parse(props[property]) == n.value
    else property !in props
  }

  lemma NumberCarried(props: Session, property: string, n: Option<nat>)
    requires Carries(props, property, Mapped(n, Decimal.ToString))
    ensures CarriesNumber(props, property, n)
  {
    if n.Some? {
      DigitsArePlain(n.value);
      SeenPlain(Decimal.ToString(n.value));
      Decimal.ParseToString(n.value);
    }
  }

  /** A flag arrives spelled out. */
  ghost predicate CarriesFlag(props: Session, property: string, flag: Option<bool>) {
    if flag.Some? then property in props && props[property] == (if flag.value then "true" else "false")
    else property !in props
  }

  lemma PlainCarried(props: Session, property: string, v: string)
    requires Carries(props, property, Some(v)) && Plain(v) && v != ""
    ensures property in props && props[property] == v
  {
    SeenPlain(v);
  }

  lemma FlagWordsArePlain()
    ensures Plain("true") && Plain("false")
  {
  }

  lemma FlagCarried(props: Session, property: string, flag: Option<bool>)
    requires Carries(props, property, Mapped(flag, RenderBool))
    ensures CarriesFlag(props, property, flag)
  {
    if flag.Some? {
      FlagWordsArePlain();
      PlainCarried(props, property, RenderBool(flag.value));
    }
  }

  ghost predicate CarriesMode(props: Session, mode: Option<Mode>) {
    match mode
    case None => "MODE" !in props
    case Some(DaemonPoll) => "MODE" in props && props["MODE"] == "daemon_poll"
    case Some(ServerPoll) => "MODE" in props && props["MODE"] == "server_poll"
  }

  lemma ModeWordsArePlain()
    ensures Plain("daemon_poll") && Plain("server_poll")
  {
  }

  lemma ModeCarried(props: Session, mode: Option<Mode>)
    requires Carries(props, "MODE", Mapped(mode, RenderMode))
    ensures CarriesMode(props, mode)
  {
    if mode.Some? {
      ModeWordsArePlain();
      PlainCarried(props, "MODE", RenderMode(mode.value));
    }
  }

  lemma FirstRows(a: DaemonArgs)
    ensures |Table(a)| == 13
    ensures Table(a)[0] == Row(Some(ModeField), Mapped(a.mode, RenderMode))
    ensures Table(a)[1] == Row(Some(NameField), a.name)
    ensures Table(a)[3] == Row(Some(UrlField), a.serverUrl)
    ensures Table(a)[5] == Row(Some(PortField), Mapped(a.port, Decimal.ToString))
    ensures Table(a)[6] == Row(Some(AddrField), a.bindAddress)
  {
  }

  lemma LastRows(a: DaemonArgs)
    ensures |Table(a)| == 13
    ensures Table(a)[7] == Row(Some(LogLevelField), a.logLevel)
    ensures Table(a)[8] == Row(Some(LogFileField), a.logFile)
    ensures Table(a)[9] == Row(Some(HeartbeatField), Mapped(a.heartbeat, Decimal.ToString))
    ensures
      Table(a)[10] ==
      Row(Some(InterfacesField),
          if a.interfaces.Some? && a.interfaces.value != [] then Some(Join(a.interfaces.value, ',')) else None)
    ensures Table(a)[11] == Row(Some(SelfSignedField), Mapped(a.allowSelfSigned, RenderBool))
    ensures Table(a)[12] == Row(Some(InvalidScanField), Mapped(a.acceptInvalidScan, RenderBool))
  {
  }

  lemma TextFields(props: Session, a: DaemonArgs)
    requires AllRows(props, Table(a))
    ensures Carries(props, "DAEMONNAME", a.name) && Carries(props, "SERVERURL", a.serverUrl)
    ensures Carries(props, "LISTENADDRESS", a.bindAddress)
    ensures Carries(props, "LOGLEVEL", a.logLevel) && Carries(props, "LOGFILE", a.logFile)
  {
    FirstRows(a);
    LastRows(a);
  }

  lemma ModeAndNumbers(props: Session, a: DaemonArgs)
    requires AllRows(props, Table(a))
    ensures Carries(props, "MODE", Mapped(a.mode, RenderMode))
    ensures Carries(props, "LISTENPORT", Mapped(a.port, Decimal.ToString))
    ensures Carries(props, "HEARTBEATINTERVAL", Mapped(a.heartbeat, Decimal.ToString))
  {
    FirstRows(a);
    LastRows(a);
  }

  lemma Flags(props: Session, a: DaemonArgs)
    requires AllRows(props, Table(a))
    ensures Carries(props, "ALLOWSELFSIGNEDCERTS", Mapped(a.allowSelfSigned, RenderBool))
    ensures Carries(props, "ACCEPTINVALIDSCANCERTS", Mapped(a.acceptInvalidScan, RenderBool))
  {
    LastRows(a);
  }

  lemma InterfacesCarried(props: Session, a: DaemonArgs)
    requires AllRows(props, Table(a))
    ensures a.interfaces == None ==> "INTERFACES" !in props
    ensures a.interfaces.Some? ==> Carries(props, "INTERFACES", Some(Join(a.interfaces.value, ',')))
  {
    LastRows(a);
  }

  /** The installer is told the configuration: all eleven fields, each under its own property. */
  ghost predicate Tells(props: Session, a: DaemonArgs) {
    && CarriesMode(props, a.mode)
    && Carries(props, "DAEMONNAME", a.name)
    && Carries(props, "SERVERURL", a.serverUrl)
    && CarriesNumber(props, "LISTENPORT", a.port)
    && Carries(props, "LISTENADDRESS", a.bindAddress)
    && Carries(props, "LOGLEVEL", a.logLevel)
    && Carries(props, "LOGFILE", a.logFile)
    && CarriesNumber(props, "HEARTBEATINTERVAL", a.heartbeat)
    && (if a.interfaces.Some? then Carries(props, "INTERFACES", Some(Join(a.interfaces.value, ',')))
        else "INTERFACES" !in props)
    && CarriesFlag(props, "ALLOWSELFSIGNEDCERTS", a.allowSelfSigned)
    && CarriesFlag(props, "ACCEPTINVALIDSCANCERTS", a.acceptInvalidScan)
  }

  lemma RowsTell(props: Session, a: DaemonArgs)
    requires AllRows(props, Table(a))
    ensures Tells(props, a)
  {
    TextFields(props, a);
    ModeAndNumbers(props, a);
    Flags(props, a);
    InterfacesCarried(props, a);
    ModeCarried(props, a.mode);
    NumberCarried(props, "LISTENPORT", a.port);
    NumberCarried(props, "HEARTBEATINTERVAL", a.heartbeat);
    FlagCarried(props, "ALLOWSELFSIGNEDCERTS", a.allowSelfSigned);
    FlagCarried(props, "ACCEPTINVALIDSCANCERTS", a.acceptInvalidScan);
  }

  /** For every daemon configuration within the budget, run from any directory. */
  lemma ConfigurationArrives(dir: string, a: DaemonArgs)
    requires Directory(dir) && |Query(MsiPairs(Table(a)))| <= BUDGET
    ensures Tells(Parsed(dir + FilenameOf(Table(a))), a)
  {
    TableRowsOnce(a);
    RowsCarried(dir, Table(a));
    RowsTell(Parsed(dir + FilenameOf(Table(a))), a);
  }
}
