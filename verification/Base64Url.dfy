/**
 The base64url decoder of the MSI custom action (section 5 of RFC 4648): a loop over a 32-bit shift
 register that wraps like every JScript integer operation.
 */
module Base64Url {
  import opened Arithmetic

  type Byte = n: nat | n < 256
  type Sextet = n: nat | n < 64

  const UPPER := "ABCDEFGHIJKLMNOPQRSTUVWXYZ"
  const LOWER := "abcdefghijklmnopqrstuvwxyz"
  const DIGITS := "0123456789"
  const ALPHABET := UPPER + LOWER + DIGITS + "-_"

  /** The position of `c` in the alphabet, or -1. */
  function IndexOf(c: char): (i: int)
    ensures -1 <= i < 64
  {
    if 'A' <= c <= 'Z' then (c as int) - ('A' as int)
    else if 'a' <= c <= 'z' then (c as int) - ('a' as int) + 26
    else if '0' <= c <= '9' then (c as int) - ('0' as int) + 52
    else if c == '-' then 62
    else if c == '_' then 63
    else -1
  }

  function Symbol(i: Sextet): (c: char)
    ensures IndexOf(c) == i
  {
    if i < 26 then (i + ('A' as int)) as char
    else if i < 52 then (i - 26 + ('a' as int)) as char
    else if i < 62 then (i - 52 + ('0' as int)) as char
    else if i == 62 then '-' else '_'
  }

  lemma SymbolOfIndex(c: char)
    ensures IndexOf(c) >= 0 ==> Symbol(IndexOf(c)) == c
  {
  }

  /** `IndexOf` is a search of the alphabet string. */
  lemma IndexOfSearches(c: char, i: Sextet)
    ensures |ALPHABET| == 64
    ensures IndexOf(c) == i <==> ALPHABET[i] == c
  {
    assert ALPHABET[i] == Symbol(i);
    SymbolOfIndex(c);
  }

  // ----- the reference decoder -----

  /** The sextets of the characters that belong to the alphabet. */
  function Sextets(s: string): seq<Sextet> {
    if s == "" then []
    else
      var i := IndexOf(s[|s| - 1]);
      Sextets(s[..|s| - 1]) + if i < 0 then [] else [i]
  }

  /** The sextets read as one unbounded number, most significant first. */
  function Value(ds: seq<Sextet>): nat {
    if ds == [] then 0 else Value(ds[..|ds| - 1]) * 64 + ds[|ds| - 1]
  }

  /** Byte `j` of the bit string, counted from its most significant end. */
  function ByteAt(ds: seq<Sextet>, j: nat): Byte
    requires 8 * (j + 1) <= 6 * |ds|
  {
    Value(ds) / Pow2(6 * |ds| - 8 * (j + 1)) % 256
  }

  /** How many bits `n` sextets leave over, and how many whole bytes they hold. */
  function Spare(n: nat): nat {
    if n == 0 then 0 else if Spare(n - 1) >= 2 then Spare(n - 1) - 2 else 6
  }

  function Count(n: nat): nat {
    if n == 0 then 0 else Count(n - 1) + if Spare(n - 1) >= 2 then 1 else 0
  }

  lemma {:induction false} CountExact(n: nat)
    ensures 6 * n == 8 * Count(n) + Spare(n) && Spare(n) in {0, 2, 4, 6}
  {
    if n > 0 {
      CountExact(n - 1);
    }
  }

  /** The byte a sextet completes when `spare` bits were left before it. */
  function Emitted(value: nat, spare: nat): seq<Byte> {
    if spare == 2 then [value % 256]
    else if spare == 4 then [value / 4 % 256]
    else if spare == 6 then [value / 16 % 256]
    else []
  }

  /** The whole bytes of the bit string, as each sextet completes them. */
  function Bytes(ds: seq<Sextet>): seq<Byte> {
    if ds == [] then []
    else Bytes(ds[..|ds| - 1]) + Emitted(Value(ds), Spare(|ds| - 1))
  }

  function Decoded(s: string): seq<Byte> {
    Bytes(Sextets(s))
  }

  lemma Pow2Plus6(e: nat)
    ensures Pow2(e + 6) == 64 * Pow2(e)
  {
    assert Pow2(e + 6) == 2 * Pow2(e + 5) == 4 * Pow2(e + 4);
    assert Pow2(e + 4) == 2 * Pow2(e + 3) == 4 * Pow2(e + 2);
    assert Pow2(e + 2) == 2 * Pow2(e + 1) == 4 * Pow2(e);
  }

  lemma ByteAtStable(ds: seq<Sextet>, d: Sextet, j: nat)
    requires 8 * (j + 1) <= 6 * |ds|
    ensures ByteAt(ds + [d], j) == ByteAt(ds, j)
  {
    var all := ds + [d];
    assert all[..|ds|] == ds;
    var e := 6 * |ds| - 8 * (j + 1);
    var v := Value(all);
    assert v / 64 == Value(ds);
    Pow2Plus6(e);
    DivDiv(v, 64, Pow2(e));
  }

  lemma ValueSnoc(ds: seq<Sextet>, d: Sextet)
    ensures Value(ds + [d]) == Value(ds) * 64 + d
  {
  }

  /** One more sextet appends the byte it completes, if any. */
  lemma BytesSnoc(ds: seq<Sextet>, d: Sextet)
    ensures Bytes(ds + [d]) == Bytes(ds) + Emitted(Value(ds + [d]), Spare(|ds|))
  {
  }

  lemma CompletedByte(ds: seq<Sextet>, d: Sextet)
    requires Spare(|ds|) >= 2
    ensures 8 * (Count(|ds|) + 1) <= 6 * |ds + [d]|
    ensures [ByteAt(ds + [d], Count(|ds|))] == Emitted(Value(ds + [d]), Spare(|ds|))
  {
    CountExact(|ds|);
    ValueSnoc(ds, d);
    assert |ds + [d]| == |ds| + 1;
    assert 6 * |ds + [d]| - 8 * (Count(|ds|) + 1) == Spare(|ds|) - 2;
    assert Pow2(0) == 1 && Pow2(1) == 2 && Pow2(2) == 4 && Pow2(3) == 8 && Pow2(4) == 16;
  }

  lemma EmittedLength(value: nat, n: nat)
    ensures |Emitted(value, Spare(n))| == Count(n + 1) - Count(n)
  {
    CountExact(n);
  }

  lemma NewestByte(n: nat, j: nat)
    requires 6 * n < 8 * (j + 1) <= 6 * (n + 1)
    ensures Spare(n) >= 2 && j == Count(n)
  {
    CountExact(n);
  }

  /** The bytes are those of the one unbounded number the sextets spell. */
  lemma {:induction false} BytesExact(ds: seq<Sextet>, j: nat)
    ensures |Bytes(ds)| == Count(|ds|)
    ensures 8 * (j + 1) <= 6 * |ds| ==> j < Count(|ds|) && Bytes(ds)[j] == ByteAt(ds, j)
  {
    CountExact(|ds|);
    if ds != [] {
      var front, d := ds[..|ds| - 1], ds[|ds| - 1];
      assert ds == front + [d];
      BytesExact(front, j);
      BytesSnoc(front, d);
      EmittedLength(Value(ds), |front|);
      if 8 * (j + 1) <= 6 * |front| {
        ByteAtStable(front, d, j);
      } else if 8 * (j + 1) <= 6 * |ds| {
        NewestByte(|front|, j);
        CompletedByte(front, d);
      }
    }
  }

  // ----- the streaming decoder -----

  function ToInt32(x: int): (r: int)
    ensures -0x8000_0000 <= r < 0x8000_0000 && (x - r) % 0x1_0000_0000 == 0
  {
    var m := x % 0x1_0000_0000;
    if m < 0x8000_0000 then m else m - 0x1_0000_0000
  }

  /** Shift six places and or in a sextet. The six low bits are zero then, so the or is a sum. */
  function ShiftIn(buffer: int, d: Sextet): int {
    ToInt32(buffer * 64) + d
  }

  /** Arithmetic right shift, for the three distances the decoder uses. */
  function ShiftRight(x: int, k: nat): int
    requires k in {0, 2, 4}
  {
    if k == 0 then x else if k == 2 then x / 4 else x / 16
  }

  lemma ModShift(a: int, m: nat, t: int)
    requires m == 256
    ensures (a + m * t) % m == a % m
  {
  }

  lemma WrapKeepsLowByte(buffer: int, value: nat, k: nat)
    requires (buffer - value) % 0x1_0000_0000 == 0 && k in {0, 2, 4}
    ensures ShiftRight(buffer, k) % 256 == ShiftRight(value, k) % 256
  {
    var t := (buffer - value) / 0x1_0000_0000;
    assert buffer == value + 0x1_0000_0000 * t;
    if k == 0 {
      ModShift(value, 256, 0x100_0000 * t);
    } else if k == 2 {
      assert buffer / 4 == value / 4 + 0x4000_0000 * t;
      ModShift(value / 4, 256, 0x40_0000 * t);
    } else {
      assert buffer / 16 == value / 16 + 0x1000_0000 * t;
      ModShift(value / 16, 256, 0x10_0000 * t);
    }
  }

  lemma WholeMultiple(x: int, q: int)
    requires x == 0x1_0000_0000 * q
    ensures x % 0x1_0000_0000 == 0
  {
  }

  lemma ShiftInStaysCongruent(buffer: int, value: nat, d: Sextet)
    requires (buffer - value) % 0x1_0000_0000 == 0
    ensures (ShiftIn(buffer, d) - (value * 64 + d)) % 0x1_0000_0000 == 0
  {
    var r := ToInt32(buffer * 64);
    var t, p := (buffer - value) / 0x1_0000_0000, (buffer * 64 - r) / 0x1_0000_0000;
    assert buffer - value == 0x1_0000_0000 * t && buffer * 64 - r == 0x1_0000_0000 * p;
    WholeMultiple(r - value * 64, 64 * t - p);
  }

  /** The register between two characters, and the sextets it has taken in. */
  ghost predicate Tracks(buffer: int, bits: nat, ds: seq<Sextet>) {
    bits == Spare(|ds|) && (buffer - Value(ds)) % 0x1_0000_0000 == 0
  }

  lemma TakesIn(buffer: int, bits: nat, ds: seq<Sextet>, d: Sextet)
    requires Tracks(buffer, bits, ds)
    ensures
      var b := ShiftIn(buffer, d);
      && (bits < 2 ==> Tracks(b, bits + 6, ds + [d]) && Bytes(ds + [d]) == Bytes(ds))
      && (bits >= 2 ==> bits - 2 in {0, 2, 4} && Tracks(b, bits - 2, ds + [d])
                        && Bytes(ds + [d]) == Bytes(ds) + [ShiftRight(b, bits - 2) % 256])
  {
    CountExact(|ds|);
    ValueSnoc(ds, d);
    BytesSnoc(ds, d);
    ShiftInStaysCongruent(buffer, Value(ds), d);
    if bits >= 2 {
      WrapKeepsLowByte(ShiftIn(buffer, d), Value(ds + [d]), bits - 2);
    }
  }

  /** On every string, the wrapping register yields what the unbounded reference yields. */
  method Decode(input: string) returns (out: seq<Byte>)
    ensures out == Decoded(input)
  {
    out := [];
    var buffer, bits := 0, 0;
    ghost var ds: seq<Sextet> := [];
    for i := 0 to |input|
      invariant ds == Sextets(input[..i])
      invariant Tracks(buffer, bits, ds)
      invariant out == Bytes(ds)
    {
      assert input[..i + 1][..i] == input[..i];
      var idx := IndexOf(input[i]);
      if idx < 0 {
        continue;
      }
      TakesIn(buffer, bits, ds, idx);
      buffer := ShiftIn(buffer, idx);
      bits := bits + 6;
      ds := ds + [idx];
      if bits >= 8 {
        bits := bits - 8;
        out := out + [ShiftRight(buffer, bits) % 256];
      }
    }
    assert input[..|input|] == input;
  }

  /** Decoding, as arithmetic on the one unbounded number the sextets of the string spell. */
  lemma DecodedExact(s: string, j: nat)
    ensures |Decoded(s)| == 6 * |Sextets(s)| / 8
    ensures 8 * (j + 1) <= 6 * |Sextets(s)| ==> j < |Decoded(s)| && Decoded(s)[j] == ByteAt(Sextets(s), j)
  {
    BytesExact(Sextets(s), j);
    CountExact(|Sextets(s)|);
  }

  // ----- properties of decoding -----

  lemma {:induction false} SextetsConcat(s: string, t: string)
    ensures Sextets(s + t) == Sextets(s) + Sextets(t)
  {
    if t == "" {
      assert s + t == s;
    } else {
      SextetsConcat(s, t[..|t| - 1]);
      assert (s + t)[..|s + t| - 1] == s + t[..|t| - 1];
    }
  }

  /** Characters outside the alphabet are ignored wherever they stand. */
  lemma StrayIgnored(s: string, c: char, t: string)
    requires c !in ALPHABET
    ensures Decoded(s + [c] + t) == Decoded(s + t)
  {
    if IndexOf(c) >= 0 {
      IndexOfSearches(c, IndexOf(c));
    }
    assert Sextets([c]) == [] by { assert [c][..0] == ""; }
    SextetsConcat(s + [c], t);
    SextetsConcat(s, [c]);
    SextetsConcat(s, t);
    assert Sextets(s) + [] + Sextets(t) == Sextets(s) + Sextets(t);
  }

  lemma {:induction false} BytesPrefix(ds: seq<Sextet>, es: seq<Sextet>)
    ensures Bytes(ds) <= Bytes(ds + es)
  {
    if es == [] {
      assert ds + es == ds;
    } else {
      var front := es[..|es| - 1];
      BytesPrefix(ds, front);
      BytesSnoc(ds + front, es[|es| - 1]);
      assert ds + es == ds + front + [es[|es| - 1]];
    }
  }

  /** Decoding a string is a prefix of decoding any extension of it. */
  lemma DecodedPrefix(s: string, t: string)
    ensures Decoded(s) <= Decoded(s + t)
  {
    SextetsConcat(s, t);
    BytesPrefix(Sextets(s), Sextets(t));
  }

  // ----- the unpadded encoder and the round trip -----

  function Group(a: Byte, b: Byte, c: Byte): seq<Sextet> {
    [a / 4, a % 4 * 16 + b / 16, b % 16 * 4 + c / 64, c % 64]
  }

  /** Bytes repacked into sextets, three by three, the last group filled up with zero bits. */
  function Packed(b: seq<Byte>): (ds: seq<Sextet>)
    ensures 4 * |b| <= 3 * |ds| <= 4 * |b| + 2
  {
    if |b| == 0 then []
    else if |b| == 1 then Group(b[0], 0, 0)[..2]
    else if |b| == 2 then Group(b[0], b[1], 0)[..3]
    else Group(b[0], b[1], b[2]) + Packed(b[3..])
  }

  function Spelled(ds: seq<Sextet>): (s: string)
    ensures |s| == |ds|
    ensures forall i :: 0 <= i < |s| ==> s[i] == Symbol(ds[i])
  {
    if ds == [] then "" else Spelled(ds[..|ds| - 1]) + [Symbol(ds[|ds| - 1])]
  }

  function Encode(b: seq<Byte>): string {
    Spelled(Packed(b))
  }

  lemma {:induction false} SpelledReadsBack(ds: seq<Sextet>)
    ensures Sextets(Spelled(ds)) == ds
  {
    if ds != [] {
      SpelledReadsBack(ds[..|ds| - 1]);
      assert Spelled(ds)[..|ds| - 1] == Spelled(ds[..|ds| - 1]);
    }
  }

  lemma Shift4(v: nat, u: nat, t: nat, x: Sextet, y: Sextet)
    requires u == v * 64 + x && t == u * 64 + y
    ensures t / 16 % 256 == x * 4 + y / 16
  {
    assert t / 16 == v * 256 + (x * 4 + y / 16);
    ModShift(x * 4 + y / 16, 256, v);
  }

  lemma Shift2(v: nat, u: nat, t: nat, y: Sextet, z: Sextet)
    requires u == v * 64 + y && t == u * 64 + z
    ensures t / 4 % 256 == y % 16 * 16 + z / 4
  {
    assert t / 4 == (y % 16 * 16 + z / 4) + 256 * (v * 4 + y / 16);
    ModShift(y % 16 * 16 + z / 4, 256, v * 4 + y / 16);
  }

  lemma Shift0(v: nat, u: nat, t: nat, z: Sextet, w: Sextet)
    requires u == v * 64 + z && t == u * 64 + w
    ensures t % 256 == z % 4 * 64 + w
  {
    assert t == (z % 4 * 64 + w) + 256 * (v * 16 + z / 4);
    ModShift(z % 4 * 64 + w, 256, v * 16 + z / 4);
  }

  lemma FirstByte(ds: seq<Sextet>, x: Sextet, y: Sextet)
    requires Spare(|ds|) == 0
    ensures Spare(|ds + [x] + [y]|) == 4
    ensures Bytes(ds + [x] + [y]) == Bytes(ds) + [x * 4 + y / 16]
  {
    BytesSnoc(ds, x);
    BytesSnoc(ds + [x], y);
    ValueSnoc(ds, x);
    ValueSnoc(ds + [x], y);
    Shift4(Value(ds), Value(ds + [x]), Value(ds + [x] + [y]), x, y);
  }

  lemma SecondByte(ds: seq<Sextet>, y: Sextet, z: Sextet)
    requires Spare(|ds + [y]|) == 4
    ensures Spare(|ds + [y] + [z]|) == 2
    ensures Bytes(ds + [y] + [z]) == Bytes(ds + [y]) + [y % 16 * 16 + z / 4]
  {
    BytesSnoc(ds + [y], z);
    ValueSnoc(ds, y);
    ValueSnoc(ds + [y], z);
    Shift2(Value(ds), Value(ds + [y]), Value(ds + [y] + [z]), y, z);
  }

  lemma ThirdByte(ds: seq<Sextet>, z: Sextet, w: Sextet)
    requires Spare(|ds + [z]|) == 2
    ensures Spare(|ds + [z] + [w]|) == 0
    ensures Bytes(ds + [z] + [w]) == Bytes(ds + [z]) + [z % 4 * 64 + w]
  {
    BytesSnoc(ds + [z], w);
    ValueSnoc(ds, z);
    ValueSnoc(ds + [z], w);
    Shift0(Value(ds), Value(ds + [z]), Value(ds + [z] + [w]), z, w);
  }

  /** Splitting bytes into sextets and joining them again, with `c` the byte after `b`. */
  lemma Regroup(a: Byte, b: Byte, c: Byte)
    ensures a / 4 * 4 + (a % 4 * 16 + b / 16) / 16 == a
    ensures (a % 4 * 16 + b / 16) % 16 * 16 + (b % 16 * 4 + c / 64) / 4 == b
    ensures (b % 16 * 4 + c / 64) % 4 * 64 + c % 64 == c
  {
  }

  lemma FourSextets(ds: seq<Sextet>, x: Sextet, y: Sextet, z: Sextet, w: Sextet)
    requires Spare(|ds|) == 0
    ensures Bytes(ds + [x] + [y]) == Bytes(ds) + [x * 4 + y / 16]
    ensures Bytes(ds + [x] + [y] + [z]) == Bytes(ds) + [x * 4 + y / 16] + [y % 16 * 16 + z / 4]
    ensures Bytes(ds + [x] + [y] + [z] + [w]) == Bytes(ds) + [x * 4 + y / 16] + [y % 16 * 16 + z / 4] + [z % 4 * 64 + w]
    ensures Spare(|ds + [x] + [y] + [z] + [w]|) == 0
  {
    FirstByte(ds, x, y);
    SecondByte(ds + [x], y, z);
    ThirdByte(ds + [x] + [y], z, w);
  }

  lemma OneByOne(ds: seq<Sextet>, g: seq<Sextet>)
    requires |g| == 4
    ensures ds + g[..2] == ds + [g[0]] + [g[1]]
    ensures ds + g[..3] == ds + [g[0]] + [g[1]] + [g[2]]
    ensures ds + g == ds + [g[0]] + [g[1]] + [g[2]] + [g[3]]
  {
  }

  lemma GroupDecodes(ds: seq<Sextet>, a: Byte, b: Byte, c: Byte)
    requires Spare(|ds|) == 0
    ensures Bytes(ds + Group(a, b, c)[..2]) == Bytes(ds) + [a]
    ensures Bytes(ds + Group(a, b, c)[..3]) == Bytes(ds) + [a] + [b]
    ensures Bytes(ds + Group(a, b, c)) == Bytes(ds) + ([a] + [b] + [c])
    ensures Spare(|ds + Group(a, b, c)|) == 0
  {
    var g := Group(a, b, c);
    Regroup(a, b, c);
    FourSextets(ds, g[0], g[1], g[2], g[3]);
    OneByOne(ds, g);
  }

  lemma ShortDecodes(ds: seq<Sextet>, b: seq<Byte>)
    requires Spare(|ds|) == 0 && |b| < 3
    ensures Bytes(ds + Packed(b)) == Bytes(ds) + b
  {
    if |b| == 0 {
      assert ds + [] == ds;
    } else if |b| == 1 {
      assert b == [b[0]];
      GroupDecodes(ds, b[0], 0, 0);
    } else {
      assert b == [b[0]] + [b[1]];
      GroupDecodes(ds, b[0], b[1], 0);
    }
  }

  lemma Reassociate<A, B>(a: seq<A>, b: seq<A>, c: seq<A>, x: seq<B>, y: seq<B>, z: seq<B>)
    ensures a + (b + c) == a + b + c && x + (y + z) == x + y + z
  {
  }

  lemma PackedCons(a: Byte, b: Byte, c: Byte, rest: seq<Byte>)
    ensures Packed([a] + [b] + [c] + rest) == Group(a, b, c) + Packed(rest)
  {
    assert ([a] + [b] + [c] + rest)[3..] == rest;
  }

  lemma {:induction false} DecodeAfter(ds: seq<Sextet>, b: seq<Byte>)
    requires Spare(|ds|) == 0
    ensures Bytes(ds + Packed(b)) == Bytes(ds) + b
    decreases |b|
  {
    if |b| < 3 {
      ShortDecodes(ds, b);
    } else {
      var g, head, rest := Group(b[0], b[1], b[2]), [b[0]] + [b[1]] + [b[2]], b[3..];
      assert b == head + rest;
      PackedCons(b[0], b[1], b[2], rest);
      GroupDecodes(ds, b[0], b[1], b[2]);
      DecodeAfter(ds + g, rest);
      Reassociate(ds, g, Packed(rest), Bytes(ds), head, rest);
    }
  }

  /** Decoding inverts unpadded encoding of every byte sequence. */
  lemma RoundTrip(b: seq<Byte>)
    ensures Decoded(Encode(b)) == b
  {
    DecodeAfter([], b);
    assert [] + Packed(b) == Packed(b);
    SpelledReadsBack(Packed(b));
  }

  /** Encoded text holds letters, digits, hyphens and underscores only. */
  lemma EncodedAlphabet(b: seq<Byte>, i: nat)
    requires i < |Encode(b)|
    ensures
      var c := Encode(b)[i];
      ('A' <= c <= 'Z') || ('a' <= c <= 'z') || ('0' <= c <= '9') || c == '-' || c == '_'
  {
    assert IndexOf(Encode(b)[i]) >= 0;
  }

  /** The test vector of section 10 of RFC 4648 for "foo". */
  lemma StandardVector()
    ensures Encode([102, 111, 111]) == "Zm9v"
  {
    var b: seq<Byte> := [102, 111, 111];
    assert b[3..] == [];
    assert Packed(b) == [25, 38, 61, 47];
  }
}
