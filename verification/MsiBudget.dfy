/**
 Which configuration pairs an MSI filename has room for. The answer depends on the lengths of the
 encoded pairs alone, so a caller can work it out before building the name.
 */
module MsiBudget {
  import opened Wrappers
  import opened PercentCode
  import opened Text
  import opened MsiFilename
  import opened Packing
  import opened Subsequences

  function Length(p: Pair): nat {
    |Encoded(p)|
  }

  function Lengths(ps: seq<Pair>): (ls: seq<nat>)
    ensures |ls| == |ps|
  {
    Each(ps, Length)
  }

  lemma LengthsSnoc(ps: seq<Pair>)
    requires ps != []
    ensures Lengths(ps)[..|ps| - 1] == Lengths(ps[..|ps| - 1]) && Lengths(ps)[|ps| - 1] == |Encoded(ps[|ps| - 1])|
  {
  }

  function Size(s: string): nat {
    |s|
  }

  lemma {:induction false} JoinTotal(ss: seq<string>, sep: char)
    requires forall i :: 0 <= i < |ss| ==> ss[i] != ""
    ensures |Join(ss, sep)| == Total(Each(ss, Size))
  {
    if ss != [] {
      var n := |ss| - 1;
      JoinTotal(ss[..n], sep);
      assert Each(ss, Size)[..n] == Each(ss[..n], Size);
    }
  }

  /** The whole query is as long as the packing of all its pairs. */
  lemma QueryTotal(ps: seq<Pair>)
    ensures |Query(ps)| == Total(Lengths(ps))
  {
    var ss := EncodedAll(ps);
    forall i | 0 <= i < |ss|
      ensures ss[i] != "" && Each(ss, Size)[i] == Lengths(ps)[i]
    {
    }
    JoinTotal(ss, '&');
    assert Each(ss, Size) == Lengths(ps);
  }

  function KeyOf(p: Pair): string {
    Key(p.field)
  }

  function Keys(ps: seq<Pair>): seq<string> {
    Each(ps, KeyOf)
  }

  lemma {:induction false} UsedExact(ps: seq<Pair>)
    ensures |Query(Kept(ps))| == Used(Lengths(ps), BUDGET)
  {
    if ps == [] {
      assert Query([]) == "";
    } else {
      UsedExact(ps[..|ps| - 1]);
      LengthsSnoc(ps);
    }
  }

  /** The encoder keeps a pair exactly when the packing has room for it. */
  lemma KeepsIfRoom(ps: seq<Pair>)
    requires ps != []
    ensures Fits(Kept(ps[..|ps| - 1]), ps[|ps| - 1]) <==> Room(Lengths(ps), BUDGET, |ps| - 1)
  {
    UsedExact(ps[..|ps| - 1]);
    LengthsSnoc(ps);
  }

  /** The encoder's choice is the greedy packing of the encoded lengths. */
  lemma {:induction false} KeptIsChosen(ps: seq<Pair>)
    ensures Kept(ps) == Chosen(ps, Lengths(ps), BUDGET, true)
  {
    if ps != [] {
      KeptIsChosen(ps[..|ps| - 1]);
      KeepsIfRoom(ps);
      LengthsSnoc(ps);
    }
  }

  /** And it reports the rest. */
  lemma {:induction false} OmittedIsRest(ps: seq<Pair>)
    ensures Omitted(ps) == Keys(Chosen(ps, Lengths(ps), BUDGET, false))
  {
    if ps != [] {
      var front, last := ps[..|ps| - 1], ps[|ps| - 1];
      OmittedIsRest(front);
      KeepsIfRoom(ps);
      LengthsSnoc(ps);
    }
  }

  // ----- what is kept -----

  /** The kept pairs are, in their order, exactly those with room. */
  lemma KeptExact(ps: seq<Pair>) returns (at: seq<nat>)
    ensures Picks(ps, at, Kept(ps)) && Those(Lengths(ps), BUDGET, at, true)
  {
    KeptIsChosen(ps);
    at := ChosenExact(ps, Lengths(ps), BUDGET, true);
  }

  /** The keys reported as omitted are, in their order, exactly those of the pairs without room. */
  lemma OmittedExact(ps: seq<Pair>) returns (at: seq<nat>, out: seq<Pair>)
    ensures Picks(ps, at, out) && Those(Lengths(ps), BUDGET, at, false) && Omitted(ps) == Keys(out)
  {
    OmittedIsRest(ps);
    out := Chosen(ps, Lengths(ps), BUDGET, false);
    at := ChosenExact(ps, Lengths(ps), BUDGET, false);
  }

  lemma OnlyAt(ps: seq<Pair>, at: seq<nat>, out: seq<Pair>, f: Field, k: nat)
    requires OncePerField(ps) && Picks(ps, at, out) && k < |ps| && ps[k].field == f
    ensures (exists i :: 0 <= i < |out| && out[i].field == f) <==> k in at
    ensures ps[k] in out <==> k in at
  {
  }

  lemma KeysHave(ps: seq<Pair>, f: Field)
    ensures Key(f) in Keys(ps) <==> exists i :: 0 <= i < |ps| && ps[i].field == f
  {
  }

  /** A pair is in the filename if and only if there is room for it, and its key is reported if and only if not. */
  lemma KeptOrReported(ps: seq<Pair>, k: nat)
    requires OncePerField(ps) && k < |ps|
    ensures ps[k] in Kept(ps) <==> Room(Lengths(ps), BUDGET, k)
    ensures Key(ps[k].field) in Omitted(ps) <==> !Room(Lengths(ps), BUDGET, k)
  {
    var at := KeptExact(ps);
    OnlyAt(ps, at, Kept(ps), ps[k].field, k);
    var left, out := OmittedExact(ps);
    OnlyAt(ps, left, out, ps[k].field, k);
    KeysHave(out, ps[k].field);
  }

  /** Everything is kept, and nothing reported, if and only if the whole query is within the budget. */
  lemma AllKeptIff(ps: seq<Pair>)
    ensures Kept(ps) == ps <==> |Query(ps)| <= BUDGET
    ensures Omitted(ps) == [] <==> |Query(ps)| <= BUDGET
  {
    KeptIsChosen(ps);
    OmittedIsRest(ps);
    QueryTotal(ps);
    AllChosenIff(ps, Lengths(ps), BUDGET);
    assert |Omitted(ps)| == |Chosen(ps, Lengths(ps), BUDGET, false)|;
  }

  /**
   What is kept is a prefix of the configuration, as the documentation has it, if and only if no pair
   after the longest prefix that fits would fit behind that prefix.
   */
  lemma PrefixKeptIff(ps: seq<Pair>, ls: seq<nat>, n: nat)
    requires ls == Lengths(ps) && LongestFitting(ls, BUDGET, n)
    ensures Kept(ps) <= ps <==> NoneFits(ls, BUDGET, n, |ls|)
  {
    KeptIsChosen(ps);
    PrefixChosenIff(ps, ls, BUDGET, n);
  }

  lemma {:induction false} EscapeLength(v: string)
    ensures |Escape(v)| >= |v|
  {
    if v != "" {
      EscapeLength(v[1..]);
      assert |EscapeChar(v[0])| >= 1;
    }
  }

  lemma {:induction false} UnsetRowsAddNothing(rows: seq<Row>, i: nat, n: nat)
    requires i <= n <= |rows| && forall j :: i <= j < n ==> rows[j].value == None
    ensures MsiPairs(rows[..n]) == MsiPairs(rows[..i])
  {
    if i < n {
      UnsetRowsAddNothing(rows, i, n - 1);
      OneMoreRow(rows, n - 1);
    }
  }

  function NameAndPort(name: string): DaemonArgs {
    DaemonArgs(None, Some(name), None, None, None, Some(1), None, None, None, None, None, None, None)
  }

  lemma OneSetRow(rows: seq<Row>, i: nat, n: nat, p: Pair)
    requires i < n <= |rows| && rows[i] == Row(Some(p.field), Some(p.value))
    requires forall k :: i < k < n ==> rows[k].value == None
    ensures MsiPairs(rows[..n]) == MsiPairs(rows[..i]) + [p]
  {
    OneMoreRow(rows, i);
    UnsetRowsAddNothing(rows, i + 1, n);
  }

  lemma NameAndPortRows(rows: seq<Row>, p: Pair, q: Pair)
    requires |rows| == 13
    requires rows[1] == Row(Some(p.field), Some(p.value)) && rows[5] == Row(Some(q.field), Some(q.value))
    requires forall k :: 0 <= k < 13 && k != 1 && k != 5 ==> rows[k].value == None
    ensures MsiPairs(rows) == [p] + [q]
  {
    UnsetRowsAddNothing(rows, 0, 1);
    OneSetRow(rows, 1, 5, p);
    OneSetRow(rows, 5, 13, q);
    assert MsiPairs(rows[..0]) == [] && rows[..13] == rows;
  }

  lemma NameAndPortPairs(name: string)
    ensures MsiPairs(Table(NameAndPort(name))) == [Pair(NameField, name), Pair(PortField, "1")]
  {
    NameAndPortRows(Table(NameAndPort(name)), Pair(NameField, name), Pair(PortField, "1"));
  }

  lemma TooLongAlone(p: Pair)
    requires Length(p) > BUDGET
    ensures Kept([p]) == [] && Omitted([p]) == [Key(p.field)]
  {
    assert [p][..0] == [] && Query([]) == "";
  }

  lemma FitsAlone(long: Pair, p: Pair)
    requires Kept([long]) == [] && Length(p) <= BUDGET
    ensures Kept([long, p]) == [p] && Omitted([long, p]) == Omitted([long])
  {
    assert [long, p][..1] == [long] && Query([]) == "";
  }

  lemma PortFits()
    ensures Length(Pair(PortField, "1")) <= BUDGET
  {
    assert "1"[1..] == "";
    assert Escape("1") == "1";
  }

  /** A configuration whose name is too long: the port after it is still taken. */
  lemma SkipsAndGoesOn(name: string)
    requires |name| > BUDGET
    ensures
      var ps := MsiPairs(Table(NameAndPort(name)));
      Kept(ps) == [Pair(PortField, "1")] && Omitted(ps) == ["name"] && !(Kept(ps) <= ps)
  {
    NameAndPortPairs(name);
    EscapeLength(name);
    TooLongAlone(Pair(NameField, name));
    PortFits();
    FitsAlone(Pair(NameField, name), Pair(PortField, "1"));
  }

  // ----- arrival -----

  ghost predicate Arrives(dir: string, rows: seq<Row>, f: Field) {
    Property(f) in Parsed(dir + FilenameOf(rows))
  }

  lemma KeptSets(ps: seq<Pair>, k: nat)
    requires OncePerField(ps) && k < |ps|
    ensures forall v :: Sets(Kept(ps), ps[k].field, v) <==> v == ps[k].value && v != "" && Room(Lengths(ps), BUDGET, k)
  {
    KeptOncePerField(ps);
    KeptOrReported(ps, k);
    forall v | Sets(Kept(ps), ps[k].field, v)
      ensures v == ps[k].value
    {
      var i :| 0 <= i < |ps| && ps[i] == Pair(ps[k].field, v);
      assert i == k;
    }
  }

  /**
   The property is set exactly when the pair has a value and got room, and then to that very value
   exactly when the value is plain.
   */
  ghost predicate Reaches(props: Session, p: Pair, room: bool) {
    && (Property(p.field) in props <==> p.value != "" && room)
    && (Property(p.field) in props ==> (props[Property(p.field)] == p.value <==> Plain(p.value)))
  }

  lemma SetOrNot(props: Session, kept: seq<Pair>, p: Pair, room: bool)
    requires Delivers(props, kept, p.field)
    requires forall v :: Sets(kept, p.field, v) <==> v == p.value && v != "" && room
    ensures Reaches(props, p, room)
  {
    assert p.value != "" && room ==> Sets(kept, p.field, p.value);
  }

  /** For every configuration and each of its pairs: it reaches its property, given room. */
  lemma FieldArrivesIff(dir: string, rows: seq<Row>, k: nat)
    requires Directory(dir) && RowsOncePerField(rows) && k < |MsiPairs(rows)|
    ensures Reaches(Parsed(dir + FilenameOf(rows)), MsiPairs(rows)[k], Room(Lengths(MsiPairs(rows)), BUDGET, k))
  {
    var ps := MsiPairs(rows);
    PairsOncePerField(rows);
    KeptSets(ps, k);
    PropertiesExact(dir, rows, ps[k].field);
    SetOrNot(Parsed(dir + FilenameOf(rows)), Kept(ps), ps[k], Room(Lengths(ps), BUDGET, k));
  }

  /** A field that is not set in the configuration is never set by the installer. */
  lemma UnsetStaysUnset(dir: string, rows: seq<Row>, f: Field)
    requires Directory(dir) && RowsOncePerField(rows)
    requires forall k :: 0 <= k < |MsiPairs(rows)| ==> MsiPairs(rows)[k].field != f
    ensures !Arrives(dir, rows, f)
  {
    PairsOncePerField(rows);
    KeptOncePerField(MsiPairs(rows));
    PropertiesExact(dir, rows, f);
  }

  ghost predicate AllArrive(dir: string, rows: seq<Row>) {
    forall k :: 0 <= k < |MsiPairs(rows)| && MsiPairs(rows)[k].value != "" ==>
      Arrives(dir, rows, MsiPairs(rows)[k].field)
  }

  ghost predicate RoomForValues(ps: seq<Pair>) {
    forall k :: 0 <= k < |ps| && ps[k].value != "" ==> Room(Lengths(ps), BUDGET, k)
  }

  lemma RoomForValuesIff(ps: seq<Pair>)
    ensures |Query(ps)| <= BUDGET ==> RoomForValues(ps)
    ensures (forall k :: 0 <= k < |ps| ==> ps[k].value != "") ==> (RoomForValues(ps) <==> |Query(ps)| <= BUDGET)
  {
    QueryTotal(ps);
    AllRoomIff(Lengths(ps), BUDGET);
  }

  /**
   Every non-empty value of the configuration arrives if and only if there is room for each; and when
   no value is empty, if and only if the whole query is within the budget.
   */
  lemma AllArriveIff(dir: string, rows: seq<Row>)
    requires Directory(dir) && RowsOncePerField(rows)
    ensures
      var ps := MsiPairs(rows);
      && (AllArrive(dir, rows) <==> RoomForValues(ps))
      && (|Query(ps)| <= BUDGET ==> AllArrive(dir, rows))
      && ((forall k :: 0 <= k < |ps| ==> ps[k].value != "") ==> (AllArrive(dir, rows) <==> |Query(ps)| <= BUDGET))
  {
    var ps := MsiPairs(rows);
    RoomForValuesIff(ps);
    forall k | 0 <= k < |ps| && ps[k].value != ""
      ensures Arrives(dir, rows, ps[k].field) <==> Room(Lengths(ps), BUDGET, k)
    {
      FieldArrivesIff(dir, rows, k);
    }
  }

  lemma SetRowArrives(dir: string, rows: seq<Row>, r: nat)
    requires Directory(dir) && RowsOncePerField(rows) && |Query(MsiPairs(rows))| <= BUDGET
    requires r < |rows| && rows[r].field.Some? && rows[r].value.Some? && rows[r].value.value != ""
    ensures
      var f, v := rows[r].field.value, rows[r].value.value;
      Arrives(dir, rows, f) && (Parsed(dir + FilenameOf(rows))[Property(f)] == v <==> Plain(v))
  {
    var k := RowIsPair(rows, r);
    RoomForValuesIff(MsiPairs(rows));
    FieldArrivesIff(dir, rows, k);
  }

  /** For every daemon configuration within the budget, every set field with a value reaches its property. */
  lemma SetFieldArrives(dir: string, a: DaemonArgs, r: nat)
    requires Directory(dir) && |Query(MsiPairs(Table(a)))| <= BUDGET
    requires r < |Table(a)| && Table(a)[r].field.Some? && Table(a)[r].value.Some? && Table(a)[r].value.value != ""
    ensures
      var f, v := Table(a)[r].field.value, Table(a)[r].value.value;
      Arrives(dir, Table(a), f) && (Parsed(dir + FilenameOf(Table(a)))[Property(f)] == v <==> Plain(v))
  {
    TableRowsOnce(a);
    SetRowArrives(dir, Table(a), r);
  }
}
