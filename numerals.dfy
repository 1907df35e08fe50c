/** Python's `int(text, base)` and `str(n)` on ASCII text. */
module Numerals {
  import opened Results
  import opened PyText

  /** The value of `c` as a digit in any base up to 36, or 36 when it is no digit at all. */
  function DigitValue(c: char): (v: nat)
    ensures v <= 36
  {
    if '0' <= c <= '9' then c as int - '0' as int
    else if 'a' <= c <= 'z' then c as int - 'a' as int + 10
    else if 'A' <= c <= 'Z' then c as int - 'A' as int + 10
    else 36
  }

  predicate IsDigitOf(c: char, base: nat) {
    DigitValue(c) < base
  }

  /** Python's digit syntax: a digit, then digits each optionally preceded by one underscore. */
  predicate WellGrouped(s: string, base: nat) {
    && s != []
    && IsDigitOf(s[0], base)
    && forall i :: 0 <= i < |s| ==>
         IsDigitOf(s[i], base) || (s[i] == '_' && i + 1 < |s| && IsDigitOf(s[i + 1], base))
  }

  /** The number the digits of `s` spell in `base`, underscores ignored. */
  function GroupedValue(s: string, base: nat): nat {
    if s == [] then 0
    else if s[|s| - 1] == '_' then GroupedValue(s[..|s| - 1], base)
    else GroupedValue(s[..|s| - 1], base) * base + DigitValue(s[|s| - 1])
  }

  function ParseDigits(s: string, base: nat): Option<nat> {
    if WellGrouped(s, base) then Some(GroupedValue(s, base)) else None
  }

  /** The base a `0x`, `0o` or `0b` prefix announces, or 0 when `u` carries none. */
  function PrefixBase(u: string): nat {
    if |u| >= 2 && u[0] == '0' then
      if u[1] == 'x' || u[1] == 'X' then 16
      else if u[1] == 'o' || u[1] == 'O' then 8
      else if u[1] == 'b' || u[1] == 'B' then 2
      else 0
    else 0
  }

  /** After a radix prefix Python allows one underscore before the first digit. */
  function SkipUnderscore(s: string): string {
    if s != [] && s[0] == '_' then s[1..] else s
  }

  /** The unsigned part of `int(text, base)`. Base 0 infers the base from the prefix and refuses a
      leading zero on a non-zero decimal; an explicit base accepts its own prefix. */
  function ParseUnsigned(u: string, base: nat): Option<nat>
    requires base == 0 || 2 <= base <= 36
  {
    if base == 0 then
      var p := PrefixBase(u);
      if p != 0 then ParseDigits(SkipUnderscore(u[2..]), p)
      else
        match ParseDigits(u, 10)
        case None => None
        case Some(v) => if u[0] == '0' && v != 0 then None else Some(v)
    else if PrefixBase(u) == base then ParseDigits(SkipUnderscore(u[2..]), base)
    else ParseDigits(u, base)
  }

  /** The blanks `int()` skips around its digits: the ASCII blanks and every non-ASCII character for
      which `isspace()` holds. Unlike `strip()`, `int()` does not skip `\x1c`..`\x1f`. */
  predicate IsIntBlank(c: char) {
    IsSpace(c) && !('\U{1c}' <= c <= '\U{1f}')
  }

  predicate AllIntBlank(s: string) {
    forall i :: 0 <= i < |s| ==> IsIntBlank(s[i])
  }

  /** `s` is `r` with `int()` blanks around it. */
  predicate IntPadded(s: string, r: string) {
    exists i :: 0 <= i <= |s| - |r| && r == s[i..i + |r|] && AllIntBlank(s[..i]) && AllIntBlank(s[i + |r|..])
  }

  /** The text `int()` reads a sign and digits from: `s` without the blanks `int()` skips at its ends. */
  function IntStrip(s: string): (r: string)
    ensures IntPadded(s, r)
    ensures r == [] || (!IsIntBlank(r[0]) && !IsIntBlank(r[|r| - 1]))
    decreases |s|
  {
    if s != [] && IsIntBlank(s[0]) then
      var r := IntStrip(s[1..]);
      PaddedAfterBlank(s, r);
      r
    else if s != [] && IsIntBlank(s[|s| - 1]) then
      var r := IntStrip(s[..|s| - 1]);
      PaddedBeforeBlank(s, r);
      r
    else
      assert s[0..|s|] == s && s[..0] == [] && s[|s|..] == [];
      s
  }

  lemma PaddedAfterBlank(s: string, r: string)
    requires s != [] && IsIntBlank(s[0]) && IntPadded(s[1..], r)
    ensures IntPadded(s, r)
  {
    var i :| 0 <= i <= |s[1..]| - |r| && r == s[1..][i..i + |r|] && AllIntBlank(s[1..][..i]) && AllIntBlank(s[1..][i + |r|..]);
    ConsSlices(s, i, |r|);
    IntBlankCons(s, i);
    assert AllIntBlank(s[..i + 1]) && AllIntBlank(s[i + 1 + |r|..]) && r == s[i + 1..i + 1 + |r|];
  }

  lemma PaddedBeforeBlank(s: string, r: string)
    requires s != [] && IsIntBlank(s[|s| - 1]) && IntPadded(s[..|s| - 1], r)
    ensures IntPadded(s, r)
  {
    var i :| 0 <= i <= |s[..|s| - 1]| - |r| && r == s[..|s| - 1][i..i + |r|]
      && AllIntBlank(s[..|s| - 1][..i]) && AllIntBlank(s[..|s| - 1][i + |r|..]);
    SnocSlices(s, i, |r|);
    IntBlankSnoc(s, i + |r|);
    assert AllIntBlank(s[..i]) && AllIntBlank(s[i + |r|..]) && r == s[i..i + |r|];
  }

  lemma ConsSlices<T>(s: seq<T>, i: nat, n: nat)
    requires i + n < |s|
    ensures s[i + 1..i + 1 + n] == s[1..][i..i + n]
    ensures s[i + 1 + n..] == s[1..][i + n..]
  {
    assert forall k :: 1 <= k < |s| ==> s[k] == s[1..][k - 1];
  }

  lemma SnocSlices<T>(s: seq<T>, i: nat, n: nat)
    requires i + n < |s|
    ensures s[..i] == s[..|s| - 1][..i]
    ensures s[i..i + n] == s[..|s| - 1][i..i + n]
  {
  }

  /** A blank first character followed by `i` blanks makes `i + 1` blanks. */
  lemma IntBlankCons(s: string, i: nat)
    requires i < |s| && IsIntBlank(s[0]) && AllIntBlank(s[1..][..i])
    ensures AllIntBlank(s[..i + 1])
  {
    forall k | 0 <= k <= i
      ensures IsIntBlank(s[k])
    {
      if k > 0 {
        assert s[k] == s[1..][..i][k - 1];
      }
    }
  }

  /** Blanks from `k` up to the last character, then a blank last character, make blanks from `k` on. */
  lemma IntBlankSnoc(s: string, k: nat)
    requires k < |s| && IsIntBlank(s[|s| - 1]) && AllIntBlank(s[..|s| - 1][k..])
    ensures AllIntBlank(s[k..])
  {
    forall j | 0 <= j < |s| - k
      ensures IsIntBlank(s[k..][j])
    {
      if j < |s| - 1 - k {
        assert s[k..][j] == s[..|s| - 1][k..][j];
      }
    }
  }


  /** `int(text, base)`: None where Python raises ValueError. Surrounding blanks and one sign are accepted. */
  function ParseInt(text: string, base: nat): Option<int>
    requires base == 0 || 2 <= base <= 36
  {
    var t := IntStrip(text);
    var signed := t != [] && (t[0] == '-' || t[0] == '+');
    var u := if signed then t[1..] else t;
    match ParseUnsigned(u, base)
    case None => None
    case Some(m) =>
      var v: int := if signed && t[0] == '-' then -(m as int) else m;
      Some(v)
  }

  /** `int(text, base)` with its ValueError. */
  function ToInt(text: string, base: nat): (r: Result<int>)
    requires base == 0 || 2 <= base <= 36
    ensures r.Raise? ==> r.exc == ValueError
    ensures r.Ok? <==> ParseInt(text, base).Some?
    ensures r.Ok? ==> r.value == ParseInt(text, base).value
  {
    match ParseInt(text, base)
    case None => Raise(ValueError)
    case Some(v) => Ok(v)
  }

  function DecimalDigit(d: nat): (c: char)
    requires d < 10
    ensures IsAsciiDigit(c) && DigitValue(c) == d
  {
    ('0' as int + d) as char
  }

  /** `str(n)` for a natural number: its decimal digits, without leading zeros. */
  function NatToDecimal(n: nat): (r: string)
    ensures IsDigits(r)
    ensures r[0] == '0' <==> n == 0
    ensures n == 0 ==> r == "0"
  {
    if n < 10 then [DecimalDigit(n)]
    else
      var r := NatToDecimal(n / 10) + [DecimalDigit(n % 10)];
      assert r[0] == NatToDecimal(n / 10)[0];
      r
  }

  /** `str(i)` for any integer. */
  function IntToDecimal(i: int): string {
    if i < 0 then "-" + NatToDecimal(-i) else NatToDecimal(i)
  }

  /** The digits `str` writes spell the number back. */
  lemma {:induction false} NatToDecimalValue(n: nat)
    ensures WellGrouped(NatToDecimal(n), 10)
    ensures GroupedValue(NatToDecimal(n), 10) == n
  {
    var r := NatToDecimal(n);
    assert forall i :: 0 <= i < |r| ==> IsDigitOf(r[i], 10);
    if n >= 10 {
      NatToDecimalValue(n / 10);
      assert r[..|r| - 1] == NatToDecimal(n / 10);
    }
  }

  /** Decimal (`int(s)`) reading of what `str` writes for a natural number. */
  lemma DecimalRoundTrip(n: nat)
    ensures ParseInt(NatToDecimal(n), 10) == Some(n)
  {
    DigitsParse(NatToDecimal(n));
    NatToDecimalValue(n);
  }

  /** `int(str(i), 0) == i`: base-0 reading of what `str` writes, sign included. */
  lemma IntToDecimalRoundTrip(i: int)
    ensures ParseInt(IntToDecimal(i), 0) == Some(i)
  {
    var m: nat := if i < 0 then -i else i;
    var d := NatToDecimal(m);
    UnsignedDecimal(m);
    if i < 0 {
      NegativeText(d, 0);
    } else {
      UnsignedText(d, 0);
    }
  }

  lemma UnsignedText(u: string, base: nat)
    requires base == 0 || 2 <= base <= 36
    requires IsDigits(u)
    ensures ParseInt(u, base) == match ParseUnsigned(u, base) case None => None case Some(m) => Some(m as int)
  {
    IntStripNoBlankEnds(u);
  }

  lemma NegativeText(u: string, base: nat)
    requires base == 0 || 2 <= base <= 36
    requires IsDigits(u)
    ensures ParseInt("-" + u, base) == match ParseUnsigned(u, base) case None => None case Some(m) => Some(-(m as int))
  {
    var t := "-" + u;
    assert t[0] == '-' && t[1..] == u;
    assert t[|t| - 1] == u[|u| - 1];
    IntStripNoBlankEnds(t);
  }

  lemma UnsignedDecimal(n: nat)
    ensures ParseUnsigned(NatToDecimal(n), 0) == Some(n)
  {
    var d := NatToDecimal(n);
    NatToDecimalValue(n);
    assert PrefixBase(d) == 0;
  }

  /** A string of ASCII digits is read by `int(s)` as its decimal value. */
  lemma DigitsParse(s: string)
    requires IsDigits(s)
    ensures ParseInt(s, 10) == Some(GroupedValue(s, 10))
  {
    UnsignedText(s, 10);
    DecimalDigits(s);
  }

  lemma DecimalDigits(s: string)
    requires IsDigits(s)
    ensures ParseUnsigned(s, 10) == Some(GroupedValue(s, 10))
  {
    assert forall i :: 0 <= i < |s| ==> IsDigitOf(s[i], 10);
    assert WellGrouped(s, 10);
    assert PrefixBase(s) == 0;
  }

  lemma IntStripNoBlankEnds(s: string)
    requires s != [] && !IsSpace(s[0]) && !IsSpace(s[|s| - 1])
    ensures IntStrip(s) == s
  {
  }

  /** `int()` rejects a leading `\x1c`, which `strip()` would remove, and accepts a leading no-break
      space. */
  lemma IntBlanks()
    ensures Strip("\U{1c}1") == "1"
    ensures ParseInt("\U{1c}1", 2) == None
    ensures ParseInt("\U{a0}1", 2) == Some(1)
  {
    StripPadded("\U{1c}", "1", "");
    assert "\U{1c}" + "1" + "" == "\U{1c}1";
    RejectedBlank("\U{1c}1");
    AcceptedBlank("\U{a0}1");
  }

  lemma RejectedBlank(s: string)
    requires s == "\U{1c}1"
    ensures ParseInt(s, 2) == None
  {
    assert IntStrip(s) == s;
    assert !IsDigitOf(s[0], 2);
  }

  lemma AcceptedBlank(s: string)
    requires s == "\U{a0}1"
    ensures ParseInt(s, 2) == Some(1)
  {
    var t := s[1..];
    assert s == [s[0]] + t;
    LeadingIntBlank(s[0], t);
    LeadingDigit(t);
  }

  lemma LeadingDigit(t: string)
    requires t == "1"
    ensures ParseInt(t, 2) == Some(1)
  {
    assert IsDigits(t);
    UnsignedText(t, 2);
    OneDigit(t);
  }

  /** `int()` skips one leading blank of its own set. */
  lemma LeadingIntBlank(c: char, u: string)
    requires IsIntBlank(c)
    ensures IntStrip([c] + u) == IntStrip(u)
  {
    assert ([c] + u)[1..] == u;
  }

  lemma OneDigit(t: string)
    requires t == "1"
    ensures ParseUnsigned(t, 2) == Some(1)
  {
    assert WellGrouped(t, 2);
    assert GroupedValue(t, 2) == GroupedValue(t[..0], 2) * 2 + 1;
  }

  lemma StripNoBlankEnds(s: string)
    requires s != [] && !IsSpace(s[0]) && !IsSpace(s[|s| - 1])
    ensures Strip(s) == s
  {
    StripTrailingBlanks(s, "");
    assert s + "" == s;
  }
}
