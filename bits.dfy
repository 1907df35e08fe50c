/** Fixed-width words written as strings of '0' and '1', most significant bit first. */
module Bits {
  import opened Results
  import opened PyText
  import opened Numerals

  function Pow2(w: nat): (r: nat)
    ensures r >= 1
  {
    if w == 0 then 1 else 2 * Pow2(w - 1)
  }

  predicate IsBinary(s: string) {
    forall i :: 0 <= i < |s| ==> s[i] == '0' || s[i] == '1'
  }

  /** The number a bit string spells. */
  function BinaryValue(s: string): nat {
    if s == [] then 0
    else 2 * BinaryValue(s[..|s| - 1]) + (if s[|s| - 1] == '1' then 1 else 0)
  }

  /** The low `w` bits of `n`, padded with leading zeros to exactly `w` characters. */
  function FixedBinary(n: nat, w: nat): string {
    if w == 0 then [] else FixedBinary(n / 2, w - 1) + [if n % 2 == 0 then '0' else '1']
  }

  /** Division with remainder has one answer. */
  lemma DivModUnique(n: int, d: int, k: int, m: int)
    requires d > 0 && n == d * k + m && 0 <= m < d
    ensures n / d == k && n % d == m
  {
    var q, r := n / d, n % d;
    assert d * q + r == d * k + m;
    assert d * (q - k) == d * q - d * k;
    if q > k {
      MulAtLeast(d, q - k);
    } else if q < k {
      MulAtLeast(d, k - q);
    }
  }

  lemma {:induction false} MulAtLeast(d: nat, t: int)
    requires t >= 1
    ensures d * t >= d
    decreases t
  {
    if t > 1 {
      MulAtLeast(d, t - 1);
      assert d * t == d * (t - 1) + d;
    }
  }

  lemma HalfMod(n: nat, p: nat)
    requires p >= 1
    ensures 2 * ((n / 2) % p) + n % 2 == n % (2 * p)
  {
    var q := n / 2;
    var b := n % 2;
    var k := q / p;
    var m := q % p;
    assert n == 2 * q + b;
    assert q == p * k + m;
    assert n == (2 * p) * k + (2 * m + b);
    DivModUnique(n, 2 * p, k, 2 * m + b);
  }

  lemma ModMod(x: int, d: int)
    requires d > 0
    ensures (x % d) % d == x % d
  {
    DivModUnique(x % d, d, 0, x % d);
  }

  lemma {:induction false} FixedBinaryValue(n: nat, w: nat)
    ensures |FixedBinary(n, w)| == w && IsBinary(FixedBinary(n, w))
    ensures BinaryValue(FixedBinary(n, w)) == n % Pow2(w)
  {
    if w > 0 {
      var s := FixedBinary(n, w);
      FixedBinaryValue(n / 2, w - 1);
      assert s[..|s| - 1] == FixedBinary(n / 2, w - 1);
      HalfMod(n, Pow2(w - 1));
    }
  }

  /** `to_bits(value, width)`: `format(value & ((1 << width) - 1), "0{width}b")`. The mask keeps
      `value` modulo 2^width, which is its two's-complement pattern when `value` is negative. */
  function ToBits(value: int, width: nat): (r: string)
    requires width >= 1
    ensures |r| == width && IsBinary(r)
    ensures BinaryValue(r) == value % Pow2(width)
  {
    var n := value % Pow2(width);
    FixedBinaryValue(n, width);
    ModMod(value, Pow2(width));
    FixedBinary(n, width)
  }

  /** A bit string of length w spells a number below 2^w. */
  lemma {:induction false} BinaryValueBound(s: string)
    ensures BinaryValue(s) < Pow2(|s|)
  {
    if s != [] {
      BinaryValueBound(s[..|s| - 1]);
    }
  }

  /** Negative values get the two's-complement pattern: `to_bits(-v, w)` spells 2^w - v. */
  lemma TwosComplement(v: nat, width: nat)
    requires width >= 1 && 0 < v <= Pow2(width)
    ensures BinaryValue(ToBits(-(v as int), width)) == Pow2(width) - v
  {
    DivModUnique(-(v as int), Pow2(width), -1, Pow2(width) - v);
  }

  /** Reading a bit string with `int(s, 2)` yields the number it spells. */
  lemma BinaryParse(s: string)
    requires s != [] && IsBinary(s)
    ensures ParseInt(s, 2) == Some(BinaryValue(s))
  {
    assert IsDigits(s);
    UnsignedText(s, 2);
    BinaryDigits(s);
    BinaryGroupedValue(s);
    assert ParseDigits(s, 2) == Some(BinaryValue(s));
    assert ParseUnsigned(s, 2) == Some(BinaryValue(s));
  }

  lemma BinaryDigits(s: string)
    requires s != [] && IsBinary(s)
    ensures WellGrouped(s, 2) && PrefixBase(s) == 0
  {
    assert forall i :: 0 <= i < |s| ==> IsDigitOf(s[i], 2);
  }

  lemma {:induction false} BinaryGroupedValue(s: string)
    requires IsBinary(s)
    ensures GroupedValue(s, 2) == BinaryValue(s)
  {
    if s != [] {
      BinaryGroupedValue(s[..|s| - 1]);
    }
  }

  /** A value that fits in `width` bits is written and read back unchanged. */
  lemma FieldValue(value: int, width: nat)
    requires width >= 1 && 0 <= value < Pow2(width)
    ensures BinaryValue(ToBits(value, width)) == value
  {
    DivModUnique(value, Pow2(width), 0, value);
  }

  /** `int(s, 2)` of a field taken from a `to_bits` word gives back the value modulo 2^width. */
  lemma ToBitsParse(value: int, width: nat)
    requires width >= 1
    ensures ParseInt(ToBits(value, width), 2) == Some(value % Pow2(width))
  {
    BinaryParse(ToBits(value, width));
  }

  /** Zero in `w` bits is `w` zeros. */
  lemma {:induction false} FixedBinaryZero(w: nat)
    ensures FixedBinary(0, w) == seq(w, _ => '0')
  {
    if w > 0 {
      FixedBinaryZero(w - 1);
    }
  }
}
