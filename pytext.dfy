/** The few Python `str` operations the codec relies on, restricted to what the codec does with them. */
module PyText {

  /** The characters for which Python's `str.isspace()` holds; `strip()`, `split()` and the
      regular-expression class `\s` use this set. `int()` skips a smaller one (`Numerals.IsIntBlank`). */
  predicate IsSpace(c: char) {
    c == ' ' || ('\t' <= c <= '\r') || ('\U{1c}' <= c <= '\U{1f}')
    || c == '\U{85}' || c == '\U{a0}' || c == '\U{1680}' || ('\U{2000}' <= c <= '\U{200a}')
    || c == '\U{2028}' || c == '\U{2029}' || c == '\U{202f}' || c == '\U{205f}' || c == '\U{3000}'
  }

  predicate NoSpace(s: string) {
    forall i :: 0 <= i < |s| ==> !IsSpace(s[i])
  }

  predicate AllSpace(s: string) {
    forall i :: 0 <= i < |s| ==> IsSpace(s[i])
  }

  /** `s.lstrip()` */
  function TrimLeft(s: string): (r: string)
    ensures |r| <= |s| && r == s[|s| - |r|..]
    ensures AllSpace(s[..|s| - |r|])
    ensures r == [] || !IsSpace(r[0])
  {
    if s != [] && IsSpace(s[0]) then
      var t := s[1..];
      var r := TrimLeft(t);
      assert s[..|s| - |r|] == [s[0]] + t[..|t| - |r|];
      r
    else s
  }

  /** `s.rstrip()` */
  function TrimRight(s: string): (r: string)
    ensures |r| <= |s| && r == s[..|r|]
    ensures AllSpace(s[|r|..])
    ensures r == [] || !IsSpace(r[|r| - 1])
  {
    if s != [] && IsSpace(s[|s| - 1]) then
      var t := s[..|s| - 1];
      var r := TrimRight(t);
      assert s[|r|..] == t[|r|..] + [s[|s| - 1]];
      r
    else s
  }

  /** `s` is `r` with blanks around it: `s == a + r + b` for all-blank `a` and `b`. */
  predicate BlankPadded(s: string, r: string) {
    exists i :: 0 <= i <= |s| - |r| && r == s[i..i + |r|] && AllSpace(s[..i]) && AllSpace(s[i + |r|..])
  }

  /** `s.strip()`: the infix of `s` left after removing blanks at both ends. */
  function Strip(s: string): (r: string)
    ensures |r| <= |s|
    ensures BlankPadded(s, r)
    ensures r == [] || (!IsSpace(r[0]) && !IsSpace(r[|r| - 1]))
  {
    var t := TrimLeft(s);
    var r := TrimRight(t);
    TrimmedPadded(s, t, r);
    r
  }

  lemma TrimmedPadded(s: string, t: string, r: string)
    requires |t| <= |s| && t == s[|s| - |t|..] && AllSpace(s[..|s| - |t|])
    requires |r| <= |t| && r == t[..|r|] && AllSpace(t[|r|..])
    ensures BlankPadded(s, r)
  {
    var i := |s| - |t|;
    assert s[i..i + |r|] == r && s[i + |r|..] == t[|r|..];
  }

  /** Those two properties determine `strip()`: the blank-padded infix without blank ends is the
      stripped text. */
  lemma StripUnique(s: string, r: string)
    requires BlankPadded(s, r)
    requires r == [] || (!IsSpace(r[0]) && !IsSpace(r[|r| - 1]))
    ensures Strip(s) == r
  {
    var i :| 0 <= i <= |s| - |r| && r == s[i..i + |r|] && AllSpace(s[..i]) && AllSpace(s[i + |r|..]);
    var a, b := s[..i], s[i + |r|..];
    assert s == a + r + b by {
      assert s == s[..i] + s[i..i + |r|] + s[i + |r|..];
    }
    StripPadded(a, r, b);
  }

  lemma StripPadded(a: string, r: string, b: string)
    requires AllSpace(a) && AllSpace(b)
    requires r == [] || (!IsSpace(r[0]) && !IsSpace(r[|r| - 1]))
    ensures Strip(a + r + b) == r
  {
    if r == [] {
      assert a + r + b == a + b;
      ConcatAllSpace(a, b);
      StripAllSpace(a + b);
    } else {
      TrimLeftBlanks(a, r + b);
      assert a + (r + b) == a + r + b;
      TrimRightBlanks(r, b);
    }
  }

  lemma ConcatAllSpace(a: string, b: string)
    requires AllSpace(a) && AllSpace(b)
    ensures AllSpace(a + b)
  {
    forall k | 0 <= k < |a + b|
      ensures IsSpace((a + b)[k])
    {
      if k >= |a| {
        assert (a + b)[k] == b[k - |a|];
      }
    }
  }

  /** Leading blanks go, up to the first non-blank. */
  lemma {:induction false} TrimLeftBlanks(lead: string, s: string)
    requires AllSpace(lead)
    requires s == [] || !IsSpace(s[0])
    ensures TrimLeft(lead + s) == s
    decreases |lead|
  {
    if lead == [] {
      assert lead + s == s;
    } else {
      assert (lead + s)[1..] == lead[1..] + s;
      TrimLeftBlanks(lead[1..], s);
    }
  }

  /** Stripping adds no character. */
  lemma StripAvoids(s: string, c: char)
    requires c !in s
    ensures c !in Strip(s)
  {
    var t := TrimLeft(s);
    assert c !in t by {
      assert t == s[|s| - |t|..];
    }
    assert TrimRight(t) == t[..|TrimRight(t)|];
  }

  /** Text that starts and ends with a non-blank keeps its blanks-free ends under `strip()`,
      and any trailing blanks (such as the newline of a line read from a file) go. */
  lemma {:induction false} StripTrailingBlanks(s: string, tail: string)
    requires s != [] && !IsSpace(s[0]) && !IsSpace(s[|s| - 1])
    requires AllSpace(tail)
    ensures Strip(s + tail) == s
  {
    assert TrimLeft(s + tail) == s + tail;
    TrimRightBlanks(s, tail);
  }

  /** Blanks after a text that ends in a non-blank are all `strip()` removes at the right. */
  lemma StripBeforePad(x: string, pad: string)
    requires x != [] && !IsSpace(x[|x| - 1])
    requires AllSpace(pad)
    ensures Strip(x + pad) == TrimLeft(x)
    ensures TrimLeft(x) != [] && TrimLeft(x)[|TrimLeft(x)| - 1] == x[|x| - 1]
  {
    TrimLeftBeforePad(x, pad);
    TrimRightBlanks(TrimLeft(x), pad);
  }

  /** Blanks after the last non-blank character do not change where `lstrip()` stops. */
  lemma {:induction false} TrimLeftBeforePad(x: string, pad: string)
    requires x != [] && !IsSpace(x[|x| - 1])
    ensures TrimLeft(x + pad) == TrimLeft(x) + pad
    ensures TrimLeft(x) != [] && TrimLeft(x)[|TrimLeft(x)| - 1] == x[|x| - 1]
    decreases |x|
  {
    if IsSpace(x[0]) {
      assert |x| != 1;
      assert (x + pad)[1..] == x[1..] + pad;
      TrimLeftBeforePad(x[1..], pad);
    } else {
      assert (x + pad)[0] == x[0];
    }
  }

  lemma {:induction false} TrimRightBlanks(s: string, tail: string)
    requires s != [] && !IsSpace(s[|s| - 1])
    requires AllSpace(tail)
    ensures TrimRight(s + tail) == s
    decreases |tail|
  {
    if tail == [] {
      assert s + tail == s;
    } else {
      var u := s + tail;
      assert u[..|u| - 1] == s + tail[..|tail| - 1];
      TrimRightBlanks(s, tail[..|tail| - 1]);
    }
  }

  /** Length of the leading run of non-blank characters. */
  function TokenEnd(s: string): (k: nat)
    ensures k <= |s| && NoSpace(s[..k]) && (k == |s| || IsSpace(s[k]))
  {
    if s == [] || IsSpace(s[0]) then 0
    else
      var k := 1 + TokenEnd(s[1..]);
      assert s[..k] == [s[0]] + s[1..][..k - 1];
      k
  }

  /** What `split()` yields: a non-empty run of non-blank characters. */
  predicate IsToken(t: string) {
    t != [] && NoSpace(t)
  }

  /** `s.split()`: the maximal runs of non-blank characters, in order. */
  function Split(s: string): (r: seq<string>)
    ensures forall i :: 0 <= i < |r| ==> IsToken(r[i])
    ensures r == [] <==> AllSpace(s)
    decreases |s|
  {
    if s == [] then []
    else if IsSpace(s[0]) then
      assert AllSpace(s) <==> AllSpace(s[1..]) by {
        assert forall i :: 1 <= i < |s| ==> s[i] == s[1..][i - 1];
      }
      Split(s[1..])
    else
      var k := TokenEnd(s);
      [s[..k]] + Split(s[k..])
  }

  /** Tokens with the given text between each two of them. */
  function Joined(ts: seq<string>, gaps: seq<string>): string
    requires ts != [] && |gaps| == |ts| - 1
    decreases |ts|
  {
    if |ts| == 1 then ts[0] else ts[0] + gaps[0] + Joined(ts[1..], gaps[1..])
  }

  /** `split()` of tokens separated by non-empty runs of blanks, with blanks before and after,
      gives back the tokens: every string has this form, so this is what `split()` computes. */
  lemma {:induction false} SplitJoined(lead: string, ts: seq<string>, gaps: seq<string>, trail: string)
    requires AllSpace(lead) && AllSpace(trail)
    requires ts != [] && |gaps| == |ts| - 1
    requires forall i :: 0 <= i < |ts| ==> IsToken(ts[i])
    requires forall i :: 0 <= i < |gaps| ==> gaps[i] != [] && AllSpace(gaps[i])
    ensures Split(lead + Joined(ts, gaps) + trail) == ts
    decreases |ts|
  {
    var j := Joined(ts, gaps);
    SplitBlanks(lead, j + trail);
    assert lead + j + trail == lead + (j + trail);
    if |ts| == 1 {
      SplitLeadingToken(ts[0], trail);
      SplitBlanks(trail, []);
      assert trail + [] == trail;
    } else {
      var rest := Joined(ts[1..], gaps[1..]);
      var after := gaps[0] + rest + trail;
      assert j == ts[0] + gaps[0] + rest;
      Regroup(ts[0], gaps[0], rest, trail);
      assert after[0] == gaps[0][0];
      SplitLeadingToken(ts[0], after);
      SplitJoined(gaps[0], ts[1..], gaps[1..], trail);
      assert ts == [ts[0]] + ts[1..];
    }
  }

  lemma Regroup(a: string, b: string, c: string, d: string)
    ensures a + b + c + d == a + (b + c + d)
  {
  }

  /** `split()` skips leading blanks. */
  lemma {:induction false} SplitBlanks(lead: string, s: string)
    requires AllSpace(lead)
    ensures Split(lead + s) == Split(s)
    decreases |lead|
  {
    if lead == [] {
      assert lead + s == s;
    } else {
      assert (lead + s)[1..] == lead[1..] + s;
      SplitBlanks(lead[1..], s);
    }
  }

  lemma SplitLeadingToken(t: string, rest: string)
    requires IsToken(t)
    requires rest == [] || IsSpace(rest[0])
    ensures Split(t + rest) == [t] + Split(rest)
  {
    var s := t + rest;
    assert !IsSpace(s[0]);
    TokenEndWhole(t, rest);
    assert s[..|t|] == t;
    assert s[|t|..] == rest;
  }

  lemma {:induction false} TokenEndWhole(t: string, rest: string)
    requires NoSpace(t)
    requires rest == [] || IsSpace(rest[0])
    ensures TokenEnd(t + rest) == |t|
    decreases |t|
  {
    if t == [] {
      assert t + rest == rest;
    } else {
      assert (t + rest)[1..] == t[1..] + rest;
      TokenEndWhole(t[1..], rest);
    }
  }

  /** `line.replace(",", " ")` */
  function ReplaceCommas(s: string): (r: string)
    ensures |r| == |s|
    ensures forall i :: 0 <= i < |s| ==> r[i] == (if s[i] == ',' then ' ' else s[i])
  {
    seq(|s|, i requires 0 <= i < |s| => if s[i] == ',' then ' ' else s[i])
  }

  /** `s.split(c, 1)[0]`: everything before the first `c`. */
  function BeforeFirst(s: string, c: char): (r: string)
    ensures |r| <= |s| && r == s[..|r|]
    ensures c !in r
    ensures |r| < |s| ==> s[|r|] == c
  {
    if s == [] || s[0] == c then ""
    else
      var r := [s[0]] + BeforeFirst(s[1..], c);
      assert r == s[..|r|];
      r
  }

  /** Index of the first `c` in `s`, or `|s|` when there is none. */
  function IndexOf(s: string, c: char): (k: nat)
    ensures k <= |s| && c !in s[..k]
    ensures k < |s| ==> s[k] == c
  {
    |BeforeFirst(s, c)|
  }

  function LowerChar(c: char): char {
    if 'A' <= c <= 'Z' then (c as int - 'A' as int + 'a' as int) as char else c
  }

  /** `s.lower()` on ASCII letters. */
  function Lower(s: string): (r: string)
    ensures |r| == |s|
    ensures forall i :: 0 <= i < |s| ==> r[i] == LowerChar(s[i])
  {
    seq(|s|, i requires 0 <= i < |s| => LowerChar(s[i]))
  }

  predicate IsAsciiDigit(c: char) {
    '0' <= c <= '9'
  }

  /** `s.isdigit()` on ASCII text: non-empty and all decimal digits. */
  predicate IsDigits(s: string) {
    s != [] && forall i :: 0 <= i < |s| ==> IsAsciiDigit(s[i])
  }

  /** A name without upper-case letters is its own lower-case form. */
  lemma LowerOfLower(s: string)
    requires forall i :: 0 <= i < |s| ==> !('A' <= s[i] <= 'Z')
    ensures Lower(s) == s
  {
  }

  /** `strip()` of blanks only is the empty string. */
  lemma StripAllSpace(s: string)
    requires AllSpace(s)
    ensures Strip(s) == []
  {
  }

  /** The text before the first `c` of `s + t`, where `s` holds no `c` and `t` is empty or starts with `c`. */
  lemma BeforeFirstPrefix(s: string, t: string, c: char)
    requires c !in s && (t == [] || t[0] == c)
    ensures BeforeFirst(s + t, c) == s
  {
    var u := s + t;
    assert u[..|s|] == s;
  }

  /** Text without commas is left alone by the comma replacement. */
  lemma ReplaceNoCommas(s: string)
    requires ',' !in s
    ensures ReplaceCommas(s) == s
  {
    assert forall i :: 0 <= i < |s| ==> ReplaceCommas(s)[i] == s[i];
  }

  /** Joining adds no character the tokens and the gaps do not hold. */
  lemma {:induction false} JoinedAvoids(ts: seq<string>, gaps: seq<string>, c: char)
    requires ts != [] && |gaps| == |ts| - 1
    requires forall i :: 0 <= i < |ts| ==> c !in ts[i]
    requires forall i :: 0 <= i < |gaps| ==> c !in gaps[i]
    ensures c !in Joined(ts, gaps)
    decreases |ts|
  {
    if |ts| > 1 {
      JoinedAvoids(ts[1..], gaps[1..], c);
    }
  }

  /** Joined non-empty tokens start with the first token's first character and end with the last
      token's last character. */
  lemma {:induction false} JoinedEnds(ts: seq<string>, gaps: seq<string>)
    requires ts != [] && |gaps| == |ts| - 1
    requires forall i :: 0 <= i < |ts| ==> ts[i] != []
    ensures var j := Joined(ts, gaps);
      j != [] && j[0] == ts[0][0] && j[|j| - 1] == ts[|ts| - 1][|ts[|ts| - 1]| - 1]
    decreases |ts|
  {
    if |ts| > 1 {
      JoinedEnds(ts[1..], gaps[1..]);
    }
  }

  /** The comma replacement works character by character, so it distributes over concatenation. */
  lemma ReplaceCommasConcat(a: string, b: string)
    ensures ReplaceCommas(a + b) == ReplaceCommas(a) + ReplaceCommas(b)
  {
    var l, r := ReplaceCommas(a + b), ReplaceCommas(a) + ReplaceCommas(b);
    forall k | 0 <= k < |l|
      ensures l[k] == r[k]
    {
      if k >= |a| {
        assert (a + b)[k] == b[k - |a|];
      }
    }
  }

  function ReplaceEach(gaps: seq<string>): (r: seq<string>)
    ensures |r| == |gaps| && forall i :: 0 <= i < |gaps| ==> r[i] == ReplaceCommas(gaps[i])
  {
    seq(|gaps|, i requires 0 <= i < |gaps| => ReplaceCommas(gaps[i]))
  }

  /** Replacing the commas of comma-free tokens joined by gaps replaces the commas of the gaps. */
  lemma {:induction false} ReplaceCommasJoined(ts: seq<string>, gaps: seq<string>)
    requires ts != [] && |gaps| == |ts| - 1
    requires forall i :: 0 <= i < |ts| ==> ',' !in ts[i]
    ensures ReplaceCommas(Joined(ts, gaps)) == Joined(ts, ReplaceEach(gaps))
    decreases |ts|
  {
    ReplaceNoCommas(ts[0]);
    if |ts| > 1 {
      var rest := Joined(ts[1..], gaps[1..]);
      assert Joined(ts, gaps) == ts[0] + (gaps[0] + rest);
      ReplaceCommasConcat(ts[0], gaps[0] + rest);
      ReplaceCommasConcat(gaps[0], rest);
      ReplaceCommasJoined(ts[1..], gaps[1..]);
      assert ReplaceEach(gaps)[1..] == ReplaceEach(gaps[1..]);
    }
  }

  /** Lower-casing twice is lower-casing once. */
  lemma LowerTwice(s: string)
    ensures Lower(Lower(s)) == Lower(s)
  {
    LowerOfLower(Lower(s));
  }
}
