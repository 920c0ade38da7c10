/**
 The token grammar for integration targets: `<id>`, `<id>@127.0.0.1` or `<id>@<ip>[+<ip>...]`, joined by
 commas. How ids and addresses are written is a parameter.
 */
module TargetTokens {
  import opened Wrappers
  import opened Text

  type Id = nat
  type Ip = nat

  datatype Target = DaemonHost(id: Id) | Network(id: Id) | Hosts(id: Id, ips: seq<Ip>)

  /** How ids and addresses are read and written, and which addresses are loopback. */
  datatype Notation = Notation(
    readId: string -> Option<Id>,
    writeId: Id -> string,
    readIp: string -> Option<Ip>,
    writeIp: Ip -> string,
    loopback: Ip -> bool
  )

  /** Free of the grammar's separators and of white space, and not empty. */
  predicate Plain(s: string) {
    s != "" && forall c :: c in s ==> c != '@' && c != '+' && c != ',' && !IsWhitespace(c)
  }

  /** Written ids and addresses are plain and read back; 127.0.0.1 is a loopback address. */
  ghost predicate Lawful(n: Notation) {
    && (forall i: Id :: Plain(n.writeId(i)) && n.readId(n.writeId(i)) == Some(i))
    && (forall a: Ip :: Plain(n.writeIp(a)) && n.readIp(n.writeIp(a)) == Some(a))
    && n.readIp("127.0.0.1").Some? && n.loopback(n.readIp("127.0.0.1").value)
  }

  predicate AllStrokes(s: string) {
    forall c :: c in s ==> c == '|'
  }

  /** A number written as one stroke more than it counts. */
  function Strokes(n: nat): (s: string)
    ensures |s| == n + 1 && s[0] == '|' && AllStrokes(s)
  {
    if n == 0 then "|" else Strokes(n - 1) + "|"
  }

  function ReadStrokes(s: string): Option<nat> {
    if s != "" && AllStrokes(s) then Some(|s| - 1) else None
  }

  function ReadAddress(s: string): Option<nat> {
    if s == "127.0.0.1" then Some(0) else ReadStrokes(s)
  }

  predicate IsZero(n: nat) {
    n == 0
  }

  const TALLY := Notation(ReadStrokes, Strokes, ReadAddress, Strokes, IsZero)

  lemma StrokesReadBack(n: nat)
    ensures Plain(Strokes(n)) && ReadStrokes(Strokes(n)) == Some(n) && ReadAddress(Strokes(n)) == Some(n)
  {
  }

  /** There are lawful notations. */
  lemma LawfulExists()
    ensures Lawful(TALLY)
  {
    forall i: nat
      ensures Plain(TALLY.writeId(i)) && TALLY.readId(TALLY.writeId(i)) == Some(i)
      ensures Plain(TALLY.writeIp(i)) && TALLY.readIp(TALLY.writeIp(i)) == Some(i)
    {
      StrokesReadBack(i);
    }
  }

  datatype Error = InvalidIp(text: string) | NoIps | InvalidId

  // ----- reading -----

  /** The text around the first `sep`. */
  function SplitOnce(s: string, sep: char): (r: Option<(string, string)>)
    ensures r.None? <==> sep !in s
    ensures r.Some? ==> s == r.value.0 + [sep] + r.value.1 && sep !in r.value.0
  {
    if s == "" then None
    else if s[0] == sep then Some(("", s[1..]))
    else
      match SplitOnce(s[1..], sep)
      case None => None
      case Some((a, b)) => Some(([s[0]] + a, b))
  }

  /** The parts trimmed, without those that are then empty. */
  function Tidied(ps: seq<string>): (r: seq<string>)
    ensures forall i :: 0 <= i < |r| ==> r[i] != ""
  {
    if ps == [] then []
    else (if Trim(ps[0]) == "" then [] else [Trim(ps[0])]) + Tidied(ps[1..])
  }

  /** Reads them all or gives the first that fails. */
  function ReadIps(n: Notation, ps: seq<string>): (r: Result<seq<Ip>, Error>)
    ensures r.Ok? ==> |r.value| == |ps|
  {
    if ps == [] then Ok([])
    else
      match n.readIp(ps[0])
      case None => Err(InvalidIp(ps[0]))
      case Some(a) =>
        match ReadIps(n, ps[1..])
        case Err(e) => Err(e)
        case Ok(rest) => Ok([a] + rest)
  }

  function ReadId(n: Notation, s: string): Result<Id, Error> {
    match n.readId(Trim(s))
    case None => Err(InvalidId)
    case Some(i) => Ok(i)
  }

  function ReadToken(n: Notation, token: string): Result<Target, Error> {
    match SplitOnce(token, '@')
    case None =>
      (match ReadId(n, token)
       case Err(e) => Err(e)
       case Ok(i) => Ok(Network(i)))
    case Some((left, right)) =>
      match ReadIps(n, Tidied(Split(right, '+')))
      case Err(e) => Err(e)
      case Ok(ips) =>
        if ips == [] then Err(NoIps)
        else
          match ReadId(n, left)
          case Err(e) => Err(e)
          case Ok(i) => Ok(if |ips| == 1 && n.loopback(ips[0]) then DaemonHost(i) else Hosts(i, ips))
  }

  function ReadAll(n: Notation, tokens: seq<string>): (r: Result<seq<Target>, Error>)
    ensures r.Ok? ==> |r.value| == |tokens|
  {
    if tokens == [] then Ok([])
    else
      match ReadToken(n, tokens[0])
      case Err(e) => Err(e)
      case Ok(t) =>
        match ReadAll(n, tokens[1..])
        case Err(e) => Err(e)
        case Ok(rest) => Ok([t] + rest)
  }

  function ReadTokens(n: Notation, tokens: seq<string>): Result<seq<Target>, Error> {
    ReadAll(n, Tidied(tokens))
  }

  /** The environment variable is cut at commas and tidied before its tokens are read. */
  function ReadVariable(n: Notation, s: string): Result<seq<Target>, Error> {
    ReadTokens(n, Tidied(Split(s, ',')))
  }

  // ----- writing -----

  function WriteIps(n: Notation, ips: seq<Ip>): (ps: seq<string>)
    ensures |ps| == |ips|
    ensures forall i :: 0 <= i < |ps| ==> ps[i] == n.writeIp(ips[i])
  {
    seq(|ips|, i requires 0 <= i < |ips| => n.writeIp(ips[i]))
  }

  function WriteToken(n: Notation, t: Target): string {
    match t
    case DaemonHost(i) => n.writeId(i) + "@" + "127.0.0.1"
    case Network(i) => n.writeId(i)
    case Hosts(i, ips) => n.writeId(i) + "@" + Join(WriteIps(n, ips), '+')
  }

  function WriteTokens(n: Notation, ts: seq<Target>): (ps: seq<string>)
    ensures |ps| == |ts|
    ensures forall i :: 0 <= i < |ps| ==> ps[i] == WriteToken(n, ts[i])
  {
    seq(|ts|, i requires 0 <= i < |ts| => WriteToken(n, ts[i]))
  }

  // ----- one token -----

  /** Hosts that some token stands for: at least one, and not a lone loopback address. */
  predicate Writable(n: Notation, t: Target) {
    t.Hosts? ==> t.ips != [] && !(|t.ips| == 1 && n.loopback(t.ips[0]))
  }

  lemma FirstIsUnique(a: string, b: string, c: string, d: string, sep: char)
    requires a + [sep] + b == c + [sep] + d && sep !in a && sep !in c
    ensures a == c && b == d
  {
    var s := a + [sep] + b;
    assert s[|a|] == sep && s[|c|] == sep;
    assert a == s[..|a|] && c == s[..|c|];
    assert b == s[|a| + 1..] && d == s[|c| + 1..];
  }

  lemma SplitOnceAt(a: string, b: string, sep: char)
    requires sep !in a
    ensures SplitOnce(a + [sep] + b, sep) == Some((a, b))
  {
    var s := a + [sep] + b;
    assert s[|a|] == sep;
    var (c, d) := SplitOnce(s, sep).value;
    assert s == c + [sep] + d && sep !in c;
    FirstIsUnique(a, b, c, d, sep);
  }

  predicate Tidy(s: string) {
    s != "" && Trim(s) == s
  }

  lemma {:induction false} TidiedKeeps(ps: seq<string>)
    requires forall i :: 0 <= i < |ps| ==> Tidy(ps[i])
    ensures Tidied(ps) == ps
  {
    if ps != [] {
      TidiedKeeps(ps[1..]);
      assert Tidy(ps[0]);
      assert [ps[0]] + ps[1..] == ps;
    }
  }

  lemma {:induction false} ReadIpsBack(n: Notation, ips: seq<Ip>)
    requires Lawful(n)
    ensures ReadIps(n, WriteIps(n, ips)) == Ok(ips)
  {
    if ips != [] {
      ReadIpsBack(n, ips[1..]);
      assert WriteIps(n, ips)[1..] == WriteIps(n, ips[1..]);
      assert n.readIp(n.writeIp(ips[0])) == Some(ips[0]);
      assert [ips[0]] + ips[1..] == ips;
    }
  }

  lemma IpListRoundTrip(n: Notation, ips: seq<Ip>)
    requires Lawful(n)
    ensures ReadIps(n, Tidied(Split(Join(WriteIps(n, ips), '+'), '+'))) == Ok(ips)
  {
    if ips == [] {
      assert WriteIps(n, ips) == [];
      assert Split("", '+') == [""];
      assert Tidied([""]) == [];
    } else {
      var ps := WriteIps(n, ips);
      forall i | 0 <= i < |ps|
        ensures Tidy(ps[i]) && '+' !in ps[i]
      {
      }
      SplitJoin(ps, '+');
      TidiedKeeps(ps);
      ReadIpsBack(n, ips);
    }
  }

  lemma ReadIdBack(n: Notation, i: Id)
    requires Lawful(n)
    ensures ReadId(n, n.writeId(i)) == Ok(i) && SplitOnce(n.writeId(i), '@') == None
  {
  }

  lemma ReadPair(n: Notation, i: Id, right: string)
    requires Lawful(n)
    ensures SplitOnce(n.writeId(i) + "@" + right, '@') == Some((n.writeId(i), right))
  {
    SplitOnceAt(n.writeId(i), right, '@');
  }

  /** What reading a written token gives, whether or not it is the target again. */
  function ReadsAs(n: Notation, t: Target): Result<Target, Error> {
    if !t.Hosts? then Ok(t)
    else if t.ips == [] then Err(NoIps)
    else if |t.ips| == 1 && n.loopback(t.ips[0]) then Ok(DaemonHost(t.id))
    else Ok(t)
  }

  lemma OneIpReads(n: Notation, s: string, a: Ip)
    requires Plain(s) && n.readIp(s) == Some(a)
    ensures ReadIps(n, Tidied(Split(s, '+'))) == Ok([a])
  {
    SplitOne(s, '+');
    TidiedKeeps([s]);
    assert ReadIps(n, [s][1..]) == Ok([]);
    assert [a] + [] == [a];
  }

  lemma LocalIsPlain()
    ensures Plain("127.0.0.1")
  {
  }

  lemma ReadWritten(n: Notation, t: Target)
    requires Lawful(n)
    ensures ReadToken(n, WriteToken(n, t)) == ReadsAs(n, t)
  {
    ReadIdBack(n, t.id);
    match t {
      case DaemonHost(i) =>
        ReadPair(n, i, "127.0.0.1");
        LocalIsPlain();
        OneIpReads(n, "127.0.0.1", n.readIp("127.0.0.1").value);
      case Network(i) =>
      case Hosts(i, ips) =>
        ReadPair(n, i, Join(WriteIps(n, ips), '+'));
        IpListRoundTrip(n, ips);
    }
  }

  // ----- whole lists -----

  lemma {:induction false} JoinHas(ps: seq<string>, sep: char, c: char)
    requires c != sep && forall i :: 0 <= i < |ps| ==> c !in ps[i]
    ensures c !in Join(ps, sep)
  {
    if |ps| > 1 {
      JoinHas(ps[..|ps| - 1], sep, c);
      assert c !in ps[|ps| - 1];
    }
  }

  lemma WrittenIsTidy(n: Notation, t: Target)
    requires Lawful(n)
    ensures Tidy(WriteToken(n, t)) && ',' !in WriteToken(n, t)
  {
    match t {
      case DaemonHost(i) =>
        var local := "127.0.0.1";
        assert !IsWhitespace(local[|local| - 1]);
      case Network(i) =>
      case Hosts(i, ips) =>
        var ps := WriteIps(n, ips);
        forall k | 0 <= k < |ps|
          ensures Plain(ps[k]) && ',' !in ps[k]
        {
        }
        JoinHas(ps, '+', ',');
    }
  }

  lemma VariableTokens(n: Notation, ts: seq<Target>)
    requires Lawful(n)
    ensures Tidied(WriteTokens(n, ts)) == WriteTokens(n, ts)
    ensures Tidied(Split(Join(WriteTokens(n, ts), ','), ',')) == WriteTokens(n, ts)
  {
    var ps := WriteTokens(n, ts);
    forall i | 0 <= i < |ps|
      ensures Tidy(ps[i]) && ',' !in ps[i]
    {
      WrittenIsTidy(n, ts[i]);
    }
    TidiedKeeps(ps);
    if ts == [] {
      assert Split("", ',') == [""];
      assert Tidied([""]) == [];
    } else {
      SplitJoin(ps, ',');
    }
  }

  predicate AllWritable(n: Notation, ts: seq<Target>) {
    forall i :: 0 <= i < |ts| ==> Writable(n, ts[i])
  }

  lemma ReadFirst(n: Notation, ts: seq<Target>)
    requires Lawful(n) && ts != []
    ensures
      var rest := ReadAll(n, WriteTokens(n, ts[1..]));
      ReadAll(n, WriteTokens(n, ts)) ==
      if ReadsAs(n, ts[0]).Err? then Err(ReadsAs(n, ts[0]).error)
      else if rest.Err? then rest else Ok([ReadsAs(n, ts[0]).value] + rest.value)
  {
    ReadWritten(n, ts[0]);
    assert WriteTokens(n, ts)[1..] == WriteTokens(n, ts[1..]);
  }

  lemma Uncons(ts: seq<Target>, r: Result<seq<Target>, Error>)
    requires ts != []
    ensures r == Ok(ts) <==> r.Ok? && r.value != [] && r.value[0] == ts[0] && r.value[1..] == ts[1..]
  {
    assert ts == [ts[0]] + ts[1..];
    if r.Ok? && r.value != [] {
      assert r.value == [r.value[0]] + r.value[1..];
    }
  }

  lemma {:induction false} ReadAllBack(n: Notation, ts: seq<Target>)
    requires Lawful(n)
    ensures ReadAll(n, WriteTokens(n, ts)) == Ok(ts) <==> AllWritable(n, ts)
  {
    if ts != [] {
      ReadFirst(n, ts);
      ReadAllBack(n, ts[1..]);
      Uncons(ts, ReadAll(n, WriteTokens(n, ts)));
    }
  }

  /** A list survives printing, joining, cutting, trimming and reading exactly when every target is writable. */
  lemma VariableRoundTripIff(n: Notation, ts: seq<Target>)
    requires Lawful(n)
    ensures ReadVariable(n, Join(WriteTokens(n, ts), ',')) == Ok(ts) <==> AllWritable(n, ts)
  {
    VariableTokens(n, ts);
    ReadAllBack(n, ts);
  }

  /** The same without the variable, from a list of tokens. */
  lemma TokensRoundTripIff(n: Notation, ts: seq<Target>)
    requires Lawful(n)
    ensures ReadTokens(n, WriteTokens(n, ts)) == Ok(ts) <==> AllWritable(n, ts)
  {
    VariableTokens(n, ts);
    ReadAllBack(n, ts);
  }

  lemma {:induction false} ReadIsWritable(n: Notation, tokens: seq<string>)
    ensures ReadAll(n, tokens).Ok? ==> AllWritable(n, ReadAll(n, tokens).value)
  {
    if tokens != [] {
      ReadIsWritable(n, tokens[1..]);
    }
  }

  /** Whatever is accepted, printed and read again is the same: reading loses nothing a second time. */
  lemma ReadWriteRead(n: Notation, s: string, ts: seq<Target>)
    requires Lawful(n) && ReadVariable(n, s) == Ok(ts)
    ensures ReadVariable(n, Join(WriteTokens(n, ts), ',')) == Ok(ts)
  {
    ReadIsWritable(n, Tidied(Tidied(Split(s, ','))));
    VariableRoundTripIff(n, ts);
  }

  // ----- white space and mistakes -----

  /** The text with white space around it. */
  ghost predicate Pads(q: string, p: string) {
    exists before, after :: AllWhite(before) && AllWhite(after) && q == before + p + after
  }

  lemma PaddedTrims(q: string, p: string)
    requires Pads(q, p) && Tidy(p)
    ensures Trim(q) == p && (',' !in p ==> ',' !in q)
  {
    var before, after :| AllWhite(before) && AllWhite(after) && q == before + p + after;
    TrimPadded(before, p, after);
    assert !IsWhitespace(',');
  }

  ghost predicate AllPad(qs: seq<string>, ps: seq<string>) {
    |qs| == |ps| && forall i :: 0 <= i < |ps| ==> Pads(qs[i], ps[i])
  }

  lemma {:induction false} TidiedPadded(qs: seq<string>, ps: seq<string>)
    requires AllPad(qs, ps) && forall i :: 0 <= i < |ps| ==> Tidy(ps[i])
    ensures Tidied(qs) == ps
  {
    if ps != [] {
      assert Pads(qs[0], ps[0]) && Tidy(ps[0]);
      PaddedTrims(qs[0], ps[0]);
      assert AllPad(qs[1..], ps[1..]);
      TidiedPadded(qs[1..], ps[1..]);
      assert ps == [ps[0]] + ps[1..];
    }
  }

  /** Printed targets read back with any white space around each, as in a list with a space after every comma. */
  lemma PaddedRoundTrip(n: Notation, ts: seq<Target>, qs: seq<string>)
    requires Lawful(n) && AllWritable(n, ts) && ts != [] && AllPad(qs, WriteTokens(n, ts))
    ensures ReadVariable(n, Join(qs, ',')) == Ok(ts)
  {
    var ps := WriteTokens(n, ts);
    forall i | 0 <= i < |ps|
      ensures Tidy(ps[i]) && ',' !in qs[i]
    {
      WrittenIsTidy(n, ts[i]);
      assert Pads(qs[i], ps[i]);
      PaddedTrims(qs[i], ps[i]);
    }
    SplitJoin(qs, ',');
    TidiedPadded(qs, ps);
    VariableTokens(n, ts);
    ReadAllBack(n, ts);
  }

  lemma TidiedOne(p: string)
    ensures Tidied([p]) == if Trim(p) == "" then [] else [Trim(p)]
  {
    assert [p][1..] == [];
  }

  lemma TidiedCons(all: seq<string>, ps: seq<string>, p: string)
    requires all == [p] + ps
    ensures Tidied(all) == Tidied([p]) + Tidied(ps)
  {
    TidiedOne(p);
    assert all[1..] == ps;
  }

  lemma Associates(a: seq<string>, b: seq<string>, c: seq<string>)
    ensures (a + b) + c == a + (b + c)
  {
  }

  /** Blank parts are dropped, all others kept trimmed and in order. */
  lemma {:induction false} TidiedConcat(ps: seq<string>, qs: seq<string>)
    ensures Tidied(ps + qs) == Tidied(ps) + Tidied(qs)
  {
    if ps == [] {
      assert ps + qs == qs;
    } else {
      TidiedConcat(ps[1..], qs);
      TidiedCons(ps, ps[1..], ps[0]);
      Associates([ps[0]], ps[1..], qs);
      TidiedCons(ps + qs, ps[1..] + qs, ps[0]);
      Associates(Tidied([ps[0]]), Tidied(ps[1..]), Tidied(qs));
    }
  }

  /** The first address that cannot be read is the error. */
  lemma {:induction false} FirstBadIp(n: Notation, ps: seq<string>, k: nat)
    requires k < |ps| && n.readIp(ps[k]) == None && forall j :: 0 <= j < k ==> n.readIp(ps[j]).Some?
    ensures ReadIps(n, ps) == Err(InvalidIp(ps[k]))
  {
    if k > 0 {
      FirstBadIp(n, ps[1..], k - 1);
    }
  }

  lemma {:induction false} AllIpsRead(n: Notation, ps: seq<string>)
    requires forall j :: 0 <= j < |ps| ==> n.readIp(ps[j]).Some?
    ensures ReadIps(n, ps).Ok? && forall j :: 0 <= j < |ps| ==> n.readIp(ps[j]) == Some(ReadIps(n, ps).value[j])
  {
    if ps != [] {
      AllIpsRead(n, ps[1..]);
    }
  }

  /**
   What is wrong with a token, in this order: an address that cannot be read, no address after the sign, an
   id that cannot be read.
   */
  lemma TokenMistakes(n: Notation, left: string, right: string, k: nat)
    requires '@' !in left
    ensures
      var ps, r := Tidied(Split(right, '+')), ReadToken(n, left + "@" + right);
      && (k < |ps| && n.readIp(ps[k]) == None && (forall j :: 0 <= j < k ==> n.readIp(ps[j]).Some?) ==>
            r == Err(InvalidIp(ps[k])))
      && (ps == [] ==> r == Err(NoIps))
      && (ps != [] && (forall j :: 0 <= j < |ps| ==> n.readIp(ps[j]).Some?) ==>
            (r == Err(InvalidId) <==> n.readId(Trim(left)) == None))
  {
    var ps := Tidied(Split(right, '+'));
    SplitOnceAt(left, right, '@');
    if k < |ps| && n.readIp(ps[k]) == None && (forall j :: 0 <= j < k ==> n.readIp(ps[j]).Some?) {
      FirstBadIp(n, ps, k);
    }
    if forall j :: 0 <= j < |ps| ==> n.readIp(ps[j]).Some? {
      AllIpsRead(n, ps);
    }
  }
}
