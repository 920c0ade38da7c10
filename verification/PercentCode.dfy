/**
 How one configuration value travels inside the MSI filename's query: the server's escaping, and the
 JScript decoder with the exact reading of `parseInt` on any two characters.
 */
module PercentCode {
  import opened Wrappers
  import opened Base64Url
  import opened Text

  // ----- the decoder -----

  function HexValue(c: char): (v: int)
    ensures -1 <= v < 16
  {
    if '0' <= c <= '9' then (c as int) - ('0' as int)
    else if 'a' <= c <= 'f' then (c as int) - ('a' as int) + 10
    else if 'A' <= c <= 'F' then (c as int) - ('A' as int) + 10
    else -1
  }

  /** What `parseInt` skips at the front: the white space and line terminators of ECMAScript. */
  predicate IsSpace(c: char) {
    var n := c as int;
    (0x9 <= n <= 0xD) || n == 0x20 || n == 0xA0 || n == 0x1680 || (0x2000 <= n <= 0x200A)
    || n == 0x2028 || n == 0x2029 || n == 0x202F || n == 0x205F || n == 0x3000 || n == 0xFEFF
  }

  /** Beside the byte order mark that is what Unicode calls white space, but for the next-line character. */
  lemma SpaceExact(c: char)
    ensures IsSpace(c) <==> c == '\U{FEFF}' || (IsWhitespace(c) && c != '\U{85}')
  {
  }

  /**
   `String.fromCharCode(parseInt(ab, 16))`. A leading space or sign leaves one digit to read, a bad
   second digit is dropped, and whatever is not a number becomes the NUL character.
   */
  function HexPair(a: char, b: char): char {
    var x, y := HexValue(a), HexValue(b);
    if a == '0' && (b == 'x' || b == 'X') then 0 as char
    else if x >= 0 then (if y >= 0 then 16 * x + y else x) as char
    else if y >= 0 && (IsSpace(a) || a == '+') then y as char
    else if y > 0 && a == '-' then (0x1_0000 - y) as char
    else 0 as char
  }

  // ----- the host language's own reading of the two characters -----

  function SkipSpaces(s: string): string {
    if s != "" && IsSpace(s[0]) then SkipSpaces(s[1..]) else s
  }

  /** The number the leading hexadecimal digits spell, after `sofar`. */
  function HexRun(s: string, sofar: Option<nat>): Option<nat> {
    if s == "" || HexValue(s[0]) < 0 then sofar
    else HexRun(s[1..], Some(16 * (if sofar.Some? then sofar.value else 0) + HexValue(s[0])))
  }

  /** `parseInt(s, 16)`: leading spaces, a sign, an optional 0x, then as many digits as there are; `None` is NaN. */
  function ParseHex(s: string): Option<int> {
    var t := SkipSpaces(s);
    var signed := t != "" && (t[0] == '-' || t[0] == '+');
    var u := if signed then t[1..] else t;
    var v := if |u| >= 2 && u[0] == '0' && (u[1] == 'x' || u[1] == 'X') then u[2..] else u;
    match HexRun(v, None)
    case None => None
    case Some(n) => Some((if signed && t[0] == '-' then -1 else 1) * n)
  }

  /** The code of `String.fromCharCode`: the number modulo 2^16, zero for NaN. */
  function CharCode(n: Option<int>): int {
    match n case None => 0 case Some(i) => i % 0x1_0000
  }

  lemma HexRunOne(b: char, sofar: Option<nat>)
    ensures HexValue(b) < 0 ==> HexRun([b], sofar) == sofar
    ensures HexValue(b) >= 0 ==>
              HexRun([b], sofar) == Some(16 * (if sofar.Some? then sofar.value else 0) + HexValue(b))
  {
    assert [b][1..] == "";
  }

  lemma HexRunTwo(a: char, b: char)
    ensures HexValue(a) < 0 ==> HexRun([a, b], None) == None
    ensures HexValue(a) >= 0 && HexValue(b) < 0 ==> HexRun([a, b], None) == Some(HexValue(a))
    ensures HexValue(a) >= 0 && HexValue(b) >= 0 ==> HexRun([a, b], None) == Some(16 * HexValue(a) + HexValue(b))
  {
    assert [a, b][1..] == [b];
    if HexValue(a) >= 0 {
      HexRunOne(b, Some(HexValue(a)));
    }
  }

  lemma SpacesOne(b: char)
    ensures SkipSpaces([b]) == if IsSpace(b) then "" else [b]
  {
    assert [b][1..] == "";
  }

  lemma SpacesTwo(a: char, b: char)
    ensures !IsSpace(a) ==> SkipSpaces([a, b]) == [a, b]
    ensures IsSpace(a) && !IsSpace(b) ==> SkipSpaces([a, b]) == [b]
    ensures IsSpace(a) && IsSpace(b) ==> SkipSpaces([a, b]) == ""
  {
    SpacesOne(b);
    assert [a, b][1..] == [b];
  }

  /** The decoder's reading of any two characters is that of the host language. */
  lemma HexPairIsParsed(a: char, b: char)
    ensures HexPair(a, b) as int == CharCode(ParseHex([a, b]))
  {
    SpacesTwo(a, b);
    HexRunTwo(a, b);
    HexRunOne(b, None);
    assert [a, b][1..] == [b] && [b][1..] == "" && [a, b][2..] == "";
  }

  // ----- the decoder's loop -----

  /** How many characters the decoder takes at the front: an escape needs two after it. */
  function Width(s: string): nat
    requires s != ""
  {
    if s[0] == '%' && 2 < |s| then 3 else 1
  }

  /** What it makes of them; a plus sign becomes a space. */
  function Piece(s: string): char
    requires s != ""
  {
    if s[0] == '%' && 2 < |s| then HexPair(s[1], s[2]) else if s[0] == '+' then ' ' else s[0]
  }

  function Unescape(s: string): string {
    if s == "" then "" else [Piece(s)] + Unescape(s[Width(s)..])
  }

  lemma UnescapeFront(s: string, tail: string)
    requires s != "" && tail == s[Width(s)..]
    ensures Unescape(s) == [Piece(s)] + Unescape(tail)
  {
  }

  lemma Associates(a: string, b: string, c: string)
    ensures a + (b + c) == (a + b) + c
  {
  }

  lemma UnescapeAt(done: string, s: string, i: nat)
    requires i < |s| && done + Unescape(s[i..]) == Unescape(s)
    ensures
      var rest := s[i..];
      i + Width(rest) <= |s| && done + [Piece(rest)] + Unescape(s[i + Width(rest)..]) == Unescape(s)
  {
    var rest := s[i..];
    UnescapeFront(rest, s[i + Width(rest)..]);
    Associates(done, [Piece(rest)], Unescape(s[i + Width(rest)..]));
  }

  method PercentDecode(s: string) returns (out: string)
    ensures out == Unescape(s)
  {
    out := "";
    var i := 0;
    while i < |s|
      invariant 0 <= i <= |s|
      invariant out + Unescape(s[i..]) == Unescape(s)
    {
      var c := s[i];
      UnescapeAt(out, s, i);
      if c == '%' && i + 2 < |s| {
        out := out + [HexPair(s[i + 1], s[i + 2])];
        i := i + 2;
      } else if c == '+' {
        out := out + [' '];
      } else {
        out := out + [c];
      }
      i := i + 1;
    }
  }

  // ----- the server's escaping -----

  predicate IsAscii(c: char) {
    (c as int) < 0x80
  }

  /** The UTF-8 bytes of a character. */
  function Utf8(c: char): (bs: seq<Byte>)
    ensures 1 <= |bs| <= 4
    ensures !IsAscii(c) ==> |bs| >= 2 && forall i :: 0 <= i < |bs| ==> bs[i] >= 0x80
  {
    var n := c as int;
    if n < 0x80 then [n]
    else if n < 0x800 then [0xC0 + n / 0x40, 0x80 + n % 0x40]
    else if n < 0x1_0000 then [0xE0 + n / 0x1000, 0x80 + n / 0x40 % 0x40, 0x80 + n % 0x40]
    else [0xF0 + n / 0x4_0000, 0x80 + n / 0x1000 % 0x40, 0x80 + n / 0x40 % 0x40, 0x80 + n % 0x40]
  }

  /** What a UTF-8 sequence of each length stands for. */
  function Utf8Value(bs: seq<int>): int {
    if |bs| == 1 then bs[0]
    else if |bs| == 2 then (bs[0] - 0xC0) * 0x40 + (bs[1] - 0x80)
    else if |bs| == 3 then (bs[0] - 0xE0) * 0x1000 + (bs[1] - 0x80) * 0x40 + (bs[2] - 0x80)
    else if |bs| == 4 then
      (bs[0] - 0xF0) * 0x4_0000 + (bs[1] - 0x80) * 0x1000 + (bs[2] - 0x80) * 0x40 + (bs[3] - 0x80)
    else -1
  }

  lemma SixBits(n: nat)
    ensures n == n / 0x40 * 0x40 + n % 0x40
    ensures n == n / 0x1000 * 0x1000 + n / 0x40 % 0x40 * 0x40 + n % 0x40
    ensures n == n / 0x4_0000 * 0x4_0000 + n / 0x1000 % 0x40 * 0x1000 + n / 0x40 % 0x40 * 0x40 + n % 0x40
  {
    assert n / 0x40 / 0x40 == n / 0x1000;
    assert n / 0x1000 / 0x40 == n / 0x4_0000;
  }

  /** The bytes are the shortest UTF-8 sequence of the character (section 3 of RFC 3629). */
  lemma Utf8Exact(c: char)
    ensures Utf8Value(Utf8(c)) == c as int
    ensures forall i :: 1 <= i < |Utf8(c)| ==> 0x80 <= Utf8(c)[i] < 0xC0
    ensures |Utf8(c)| == 1 <==> (c as int) < 0x80
    ensures |Utf8(c)| <= 2 <==> (c as int) < 0x800
    ensures |Utf8(c)| <= 3 <==> (c as int) < 0x1_0000
    ensures |Utf8(c)| == 2 ==> 0xC0 <= Utf8(c)[0] < 0xE0
    ensures |Utf8(c)| == 3 ==> 0xE0 <= Utf8(c)[0] < 0xF0
    ensures |Utf8(c)| == 4 ==> 0xF0 <= Utf8(c)[0] < 0xF8
  {
    SixBits(c as int);
  }

  function HexDigit(d: nat): (c: char)
    requires d < 16
    ensures HexValue(c) == d && IsAscii(c)
    ensures c != '%' && c != '+' && c != '&' && c != '='
  {
    if d < 10 then (d + ('0' as int)) as char else (d - 10 + ('A' as int)) as char
  }

  function EscapeByte(b: Byte): string {
    ['%', HexDigit(b / 16), HexDigit(b % 16)]
  }

  function EscapeBytes(bs: seq<Byte>): string {
    if bs == [] then "" else EscapeByte(bs[0]) + EscapeBytes(bs[1..])
  }

  /** Only the escape marker, the two delimiters and non-ASCII characters are escaped. */
  function EscapeChar(c: char): string {
    if c == '%' then "%25"
    else if c == '&' then "%26"
    else if c == '=' then "%3D"
    else if IsAscii(c) then [c]
    else EscapeBytes(Utf8(c))
  }

  function Escape(v: string): string {
    if v == "" then "" else EscapeChar(v[0]) + Escape(v[1..])
  }

  /** A string that can stand between the query's delimiters. */
  predicate Clean(s: string) {
    forall i :: 0 <= i < |s| ==> IsAscii(s[i]) && s[i] != '&' && s[i] != '='
  }

  lemma {:induction false} EscapeBytesClean(bs: seq<Byte>)
    ensures Clean(EscapeBytes(bs))
  {
    if bs != [] {
      EscapeBytesClean(bs[1..]);
    }
  }

  lemma {:induction false} EscapeClean(v: string)
    ensures Clean(Escape(v))
  {
    if v != "" {
      EscapeClean(v[1..]);
      if !IsAscii(v[0]) {
        EscapeBytesClean(Utf8(v[0]));
      }
      assert Clean(EscapeChar(v[0]));
    }
  }

  lemma EscapedChar(c: char)
    ensures IsAscii(c) && c != '%' && c != '&' && c != '=' ==> EscapeChar(c) == [c]
    ensures !(IsAscii(c) && c != '%' && c != '&' && c != '=') ==> |EscapeChar(c)| >= 3
  {
    if !IsAscii(c) {
      assert EscapeBytes(Utf8(c)) == EscapeByte(Utf8(c)[0]) + EscapeBytes(Utf8(c)[1..]);
    }
  }

  /** Nothing is escaped but the marker, the two delimiters and what is not ASCII. */
  lemma {:induction false} EscapeUnchangedIff(v: string)
    ensures |Escape(v)| >= |v|
    ensures Escape(v) == v <==> forall i :: 0 <= i < |v| ==> IsAscii(v[i]) && v[i] != '%' && v[i] != '&' && v[i] != '='
    ensures Escape(v) != v ==> |Escape(v)| >= |v| + 2
  {
    if v != "" {
      EscapeUnchangedIff(v[1..]);
      EscapedChar(v[0]);
      assert v == [v[0]] + v[1..];
      assert forall i :: 0 < i < |v| ==> v[i] == v[1..][i - 1];
    }
  }

  // ----- what comes out at the other end -----

  function Chars(bs: seq<Byte>): (s: string)
    ensures |s| == |bs|
  {
    if bs == [] then "" else [bs[0] as char] + Chars(bs[1..])
  }

  lemma {:induction false} CharsAt(bs: seq<Byte>, i: nat)
    requires i < |bs|
    ensures Chars(bs)[i] as int == bs[i]
  {
    if i > 0 {
      CharsAt(bs[1..], i - 1);
    }
  }

  function SeenChar(c: char): (s: string)
    ensures |s| >= 1
    ensures |s| == 1 <==> IsAscii(c)
    ensures IsAscii(c) ==> s[0] == if c == '+' then ' ' else c
  {
    if c == '+' then " " else if IsAscii(c) then [c] else Chars(Utf8(c))
  }

  /** The value as the installer sees it: spaces for pluses, one character per UTF-8 byte. */
  function Seen(v: string): string {
    if v == "" then "" else SeenChar(v[0]) + Seen(v[1..])
  }

  lemma EscapedPair(b: Byte)
    requires b >= 0x10
    ensures HexPair(HexDigit(b / 16), HexDigit(b % 16)) == b as char
  {
    assert HexDigit(b / 16) != '0';
  }

  lemma UnescapeByte(b: Byte, rest: string)
    requires b >= 0x10
    ensures Unescape(EscapeByte(b) + rest) == [b as char] + Unescape(rest)
  {
    var s := EscapeByte(b) + rest;
    assert s[0] == '%' && s[1] == HexDigit(b / 16) && s[2] == HexDigit(b % 16);
    assert s[3..] == rest;
    EscapedPair(b);
  }

  lemma EscapeCons(bs: seq<Byte>, rest: string)
    requires bs != []
    ensures EscapeBytes(bs) + rest == EscapeByte(bs[0]) + (EscapeBytes(bs[1..]) + rest)
  {
  }

  lemma CharsCons(bs: seq<Byte>, rest: string)
    requires bs != []
    ensures Chars(bs) + rest == [bs[0] as char] + (Chars(bs[1..]) + rest)
  {
  }

  /** Whatever reads an escaped byte off the front reads them all. */
  lemma {:induction false} ReadsBytes(read: string -> string, bs: seq<Byte>, rest: string)
    requires forall b: Byte, tail: string {:trigger EscapeByte(b) + tail} ::
               b >= 0x10 ==> read(EscapeByte(b) + tail) == [b as char] + read(tail)
    requires forall i :: 0 <= i < |bs| ==> bs[i] >= 0x10
    ensures read(EscapeBytes(bs) + rest) == Chars(bs) + read(rest)
  {
    if bs == [] {
      assert "" + rest == rest;
    } else {
      ReadsBytes(read, bs[1..], rest);
      EscapeCons(bs, rest);
      CharsCons(bs, read(rest));
    }
  }

  lemma UnescapeBytes(bs: seq<Byte>, rest: string)
    requires forall i :: 0 <= i < |bs| ==> bs[i] >= 0x10
    ensures Unescape(EscapeBytes(bs) + rest) == Chars(bs) + Unescape(rest)
  {
    forall b: Byte, tail: string | b >= 0x10
      ensures Unescape(EscapeByte(b) + tail) == [b as char] + Unescape(tail)
    {
      UnescapeByte(b, tail);
    }
    ReadsBytes(Unescape, bs, rest);
  }

  lemma UnescapeChar(c: char, rest: string)
    ensures Unescape(EscapeChar(c) + rest) == SeenChar(c) + Unescape(rest)
  {
    if c == '%' {
      UnescapeByte(0x25, rest);
    } else if c == '&' {
      UnescapeByte(0x26, rest);
    } else if c == '=' {
      UnescapeByte(0x3D, rest);
    } else if IsAscii(c) {
      assert ([c] + rest)[1..] == rest;
    } else {
      UnescapeBytes(Utf8(c), rest);
    }
  }

  /** Decoding an escaped value yields exactly what the installer is said to see, for every string. */
  lemma {:induction false} UnescapeEscape(v: string)
    ensures Unescape(Escape(v)) == Seen(v)
  {
    if v != "" {
      UnescapeChar(v[0], Escape(v[1..]));
      UnescapeEscape(v[1..]);
    }
  }

  /** The values that survive unchanged. */
  predicate Plain(v: string) {
    forall i :: 0 <= i < |v| ==> IsAscii(v[i]) && v[i] != '+'
  }

  lemma {:induction false} SeenLength(v: string)
    ensures |Seen(v)| >= |v|
    ensures |Seen(v)| == |v| ==> forall i :: 0 <= i < |v| ==> IsAscii(v[i])
  {
    if v != "" {
      SeenLength(v[1..]);
      if |Seen(v)| == |v| {
        forall i | 0 <= i < |v|
          ensures IsAscii(v[i])
        {
          assert i > 0 ==> v[i] == v[1..][i - 1];
        }
      }
    }
  }

  lemma {:induction false} SeenAscii(v: string)
    requires forall i :: 0 <= i < |v| ==> IsAscii(v[i])
    ensures |Seen(v)| == |v|
    ensures forall i :: 0 <= i < |v| ==> Seen(v)[i] == if v[i] == '+' then ' ' else v[i]
  {
    if v != "" {
      SeenAscii(v[1..]);
    }
  }

  /**
   The round trip of a value, exactly: it comes back unchanged if and only if it is plain ASCII
   without a plus sign, the one character the decoder rewrites and the server does not escape.
   */
  lemma ValueRoundTripIff(v: string)
    ensures Unescape(Escape(v)) == v <==> Plain(v)
  {
    UnescapeEscape(v);
    SeenLength(v);
    if forall i :: 0 <= i < |v| ==> IsAscii(v[i]) {
      SeenAscii(v);
      if Plain(v) {
        assert Seen(v) == v;
      } else {
        var i :| 0 <= i < |v| && v[i] == '+';
        assert Seen(v)[i] == ' ';
      }
    }
  }

  /** The failing case: a plus sign arrives as a space. */
  lemma PlusIsLost()
    ensures Unescape(Escape("a+b")) == "a b"
  {
  }
}
