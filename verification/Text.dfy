/** Strings cut at and joined by a separator, and trimmed. */
module Text {

  function Join(ps: seq<string>, sep: char): string {
    if ps == [] then ""
    else if |ps| == 1 then ps[0]
    else Join(ps[..|ps| - 1], sep) + [sep] + ps[|ps| - 1]
  }

  /** The last part extended by `t`. */
  function Extended(ps: seq<string>, t: string): seq<string>
    requires ps != []
  {
    ps[..|ps| - 1] + [ps[|ps| - 1] + t]
  }

  function Split(s: string, sep: char): (ps: seq<string>)
    ensures ps != []
  {
    if s == "" then [""]
    else
      var n := |s| - 1;
      var ps := Split(s[..n], sep);
      if s[n] == sep then ps + [""] else Extended(ps, [s[n]])
  }

  lemma ExtendedTwice(ps: seq<string>, t: string, c: char)
    requires ps != []
    ensures Extended(ps, "") == ps
    ensures Extended(ps, t) != [] && Extended(Extended(ps, t), [c]) == Extended(ps, t + [c])
  {
    assert ps[|ps| - 1] + "" == ps[|ps| - 1];
    assert ps[|ps| - 1] + (t + [c]) == ps[|ps| - 1] + t + [c];
  }

  lemma SplitSnoc(s: string, c: char, sep: char)
    ensures Split(s + [c], sep) == if c == sep then Split(s, sep) + [""] else Extended(Split(s, sep), [c])
  {
    assert (s + [c])[..|s|] == s;
  }

  lemma SplitAppendOne(s: string, t: string, c: char, sep: char)
    requires Split(s + t, sep) == Extended(Split(s, sep), t) && c != sep
    ensures Split(s + (t + [c]), sep) == Extended(Split(s, sep), t + [c])
  {
    SplitSnoc(s + t, c, sep);
    ExtendedTwice(Split(s, sep), t, c);
    assert s + (t + [c]) == s + t + [c];
  }

  lemma {:induction false} SplitAppend(s: string, t: string, sep: char)
    requires sep !in t
    ensures Split(s + t, sep) == Extended(Split(s, sep), t)
  {
    if t == "" {
      assert s + t == s;
      ExtendedTwice(Split(s, sep), "", sep);
    } else {
      var front, c := t[..|t| - 1], t[|t| - 1];
      assert t == front + [c];
      SplitAppend(s, front, sep);
      SplitAppendOne(s, front, c, sep);
    }
  }

  lemma SplitOne(s: string, sep: char)
    requires sep !in s
    ensures Split(s, sep) == [s]
  {
    SplitAppend("", s, sep);
    assert "" + s == s;
    assert Extended([""], s) == [s];
  }

  lemma LastPart(front: seq<string>, last: string)
    ensures Extended(front + [""], last) == front + [last]
  {
    assert "" + last == last;
    assert (front + [""])[..|front|] == front;
  }

  lemma JoinSnoc(ps: seq<string>, p: string, sep: char)
    ensures Join(ps + [p], sep) == if ps == [] then p else Join(ps, sep) + [sep] + p
  {
    assert (ps + [p])[..|ps|] == ps;
  }

  lemma JoinNonEmpty(ps: seq<string>, sep: char)
    requires ps != [] && ps[|ps| - 1] != ""
    ensures Join(ps, sep) != ""
  {
  }

  /** Splitting undoes joining when no part holds the separator. */
  lemma {:induction false} SplitJoin(ps: seq<string>, sep: char)
    requires ps != [] && forall i :: 0 <= i < |ps| ==> sep !in ps[i]
    ensures Split(Join(ps, sep), sep) == ps
  {
    if |ps| == 1 {
      SplitOne(ps[0], sep);
    } else {
      var front, last := ps[..|ps| - 1], ps[|ps| - 1];
      SplitJoin(front, sep);
      SplitSnoc(Join(front, sep), sep, sep);
      SplitAppend(Join(front, sep) + [sep], last, sep);
      LastPart(front, last);
      assert ps == front + [last];
    }
  }

  /** A character with an ASCII capital lowered. */
  function Lower(c: char): char {
    if 'A' <= c <= 'Z' then ((c as int) + 32) as char else c
  }

  /** The Unicode White_Space property, which is what trimming removes. */
  predicate IsWhitespace(c: char) {
    var n := c as int;
    (0x9 <= n <= 0xD) || n == 0x20 || n == 0x85 || n == 0xA0 || n == 0x1680 || (0x2000 <= n <= 0x200A)
    || n == 0x2028 || n == 0x2029 || n == 0x202F || n == 0x205F || n == 0x3000
  }

  lemma WhitespaceExact(c: char)
    ensures IsWhitespace(c) <==>
            || c in "\t\n\U{B}\U{C}\r \U{85}\U{A0}\U{1680}\U{2028}\U{2029}\U{202F}\U{205F}\U{3000}"
            || '\U{2000}' <= c <= '\U{200A}'
  {
  }

  function Trim(s: string): (t: string)
    ensures t != "" ==> !IsWhitespace(t[0]) && !IsWhitespace(t[|t| - 1])
    decreases |s|
  {
    if s == "" then ""
    else if IsWhitespace(s[0]) then Trim(s[1..])
    else if IsWhitespace(s[|s| - 1]) then Trim(s[..|s| - 1])
    else s
  }

  predicate AllWhite(s: string) {
    forall i :: 0 <= i < |s| ==> IsWhitespace(s[i])
  }

  lemma PadFront(s: string, before: string, mid: string, after: string)
    requires s != "" && IsWhitespace(s[0]) && s[1..] == before + mid + after && AllWhite(before)
    ensures s == ([s[0]] + before) + mid + after && AllWhite([s[0]] + before)
  {
    assert s == [s[0]] + s[1..];
  }

  lemma PadBack(s: string, before: string, mid: string, after: string)
    requires s != "" && IsWhitespace(s[|s| - 1]) && s[..|s| - 1] == before + mid + after && AllWhite(after)
    ensures s == before + mid + (after + [s[|s| - 1]]) && AllWhite(after + [s[|s| - 1]])
  {
    assert s == s[..|s| - 1] + [s[|s| - 1]];
  }

  /** Trimming takes away white space at both ends and nothing else. */
  lemma {:induction false} TrimExact(s: string) returns (before: string, after: string)
    ensures s == before + Trim(s) + after && AllWhite(before) && AllWhite(after)
    decreases |s|
  {
    before, after := "", "";
    if s != "" {
      if IsWhitespace(s[0]) {
        before, after := TrimExact(s[1..]);
        PadFront(s, before, Trim(s[1..]), after);
        before := [s[0]] + before;
      } else if IsWhitespace(s[|s| - 1]) {
        before, after := TrimExact(s[..|s| - 1]);
        PadBack(s, before, Trim(s[..|s| - 1]), after);
        after := after + [s[|s| - 1]];
      }
    }
  }

  lemma TrimStep(s: string)
    requires s != ""
    ensures IsWhitespace(s[0]) ==> Trim(s) == Trim(s[1..])
    ensures !IsWhitespace(s[0]) && IsWhitespace(s[|s| - 1]) ==> Trim(s) == Trim(s[..|s| - 1])
    ensures !IsWhitespace(s[0]) && !IsWhitespace(s[|s| - 1]) ==> Trim(s) == s
  {
  }

  lemma Ends(before: string, s: string, after: string)
    requires s != ""
    ensures
      var all := before + s + after;
      && (before != "" ==> all[0] == before[0] && all[1..] == before[1..] + s + after)
      && (before == "" ==> all[0] == s[0])
      && (after != "" ==>
            all[|all| - 1] == after[|after| - 1] && all[..|all| - 1] == before + s + after[..|after| - 1])
      && (before == "" && after == "" ==> all == s)
  {
  }

  /** So whatever white space surrounds a text that has none at its ends, trimming gives the text. */
  lemma {:induction false} TrimPadded(before: string, s: string, after: string)
    requires AllWhite(before) && AllWhite(after) && s != "" && !IsWhitespace(s[0]) && !IsWhitespace(s[|s| - 1])
    ensures Trim(before + s + after) == s
    decreases |before| + |after|
  {
    Ends(before, s, after);
    TrimStep(before + s + after);
    if before != "" {
      TrimPadded(before[1..], s, after);
    } else if after != "" {
      TrimPadded(before, s, after[..|after| - 1]);
    }
  }

  lemma JoinExtended(ps: seq<string>, sep: char, c: char)
    requires ps != []
    ensures Join(Extended(ps, [c]), sep) == Join(ps, sep) + [c]
  {
    var front, last := ps[..|ps| - 1], ps[|ps| - 1];
    assert ps == front + [last];
    JoinSnoc(front, last, sep);
    JoinSnoc(front, last + [c], sep);
  }

  lemma SplitJoins(s: string, sep: char, c: char)
    requires Join(Split(s, sep), sep) == s && forall i :: 0 <= i < |Split(s, sep)| ==> sep !in Split(s, sep)[i]
    ensures
      var ps := Split(s + [c], sep);
      Join(ps, sep) == s + [c] && forall i :: 0 <= i < |ps| ==> sep !in ps[i]
  {
    SplitSnoc(s, c, sep);
    if c == sep {
      JoinSnoc(Split(s, sep), "", sep);
    } else {
      JoinExtended(Split(s, sep), sep, c);
    }
  }

  /** Joining undoes splitting, and no part holds the separator: with `SplitJoin`, that is all splitting does. */
  lemma {:induction false} JoinSplit(s: string, sep: char)
    ensures Join(Split(s, sep), sep) == s
    ensures forall i :: 0 <= i < |Split(s, sep)| ==> sep !in Split(s, sep)[i]
  {
    if s != "" {
      var front, c := s[..|s| - 1], s[|s| - 1];
      JoinSplit(front, sep);
      SplitJoins(front, sep, c);
      assert s == front + [c];
    }
  }
}
