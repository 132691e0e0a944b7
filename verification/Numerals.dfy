/** Positional numerals: what a digit string denotes, how `u128::to_string` and `{:09}` write a
    number, and what Rust's integer parsers read back. */
module Numerals {
  import opened Wrappers

  const U32_MAX: nat := 0xFFFF_FFFF
  const U64_MAX: nat := 0xFFFF_FFFF_FFFF_FFFF
  const U128_MAX: nat := 0xFFFF_FFFF_FFFF_FFFF_FFFF_FFFF_FFFF_FFFF
  const I64_MIN: int := -0x8000_0000_0000_0000
  const I64_MAX: int := 0x7FFF_FFFF_FFFF_FFFF

  predicate IsDigit(c: char) { '0' <= c <= '9' }

  predicate IsHexDigit(c: char) { IsDigit(c) || 'a' <= c <= 'f' || 'A' <= c <= 'F' }

  predicate IsDigitIn(c: char, radix: nat) {
    if radix == 16 then IsHexDigit(c) else IsDigit(c)
  }

  predicate AllDigits(s: string, radix: nat) {
    forall i :: 0 <= i < |s| ==> IsDigitIn(s[i], radix)
  }

  function Digit(c: char): (d: nat)
    requires IsHexDigit(c)
    ensures d < 16 && (IsDigit(c) ==> d < 10)
  {
    if IsDigit(c) then c as int - '0' as int
    else if 'a' <= c <= 'f' then c as int - 'a' as int + 10
    else c as int - 'A' as int + 10
  }

  /** The number a digit string denotes in `radix`. */
  function Value(s: string, radix: nat): (n: nat)
    requires AllDigits(s, radix)
  {
    if s == [] then 0 else Value(s[..|s| - 1], radix) * radix + Digit(s[|s| - 1])
  }

  function Pow(b: nat, e: nat): (n: nat)
    ensures b > 0 ==> n > 0
  {
    if e == 0 then 1 else b * Pow(b, e - 1)
  }

  lemma {:induction false} PowAdd(b: nat, e: nat, f: nat)
    ensures Pow(b, e + f) == Pow(b, e) * Pow(b, f)
  {
    if e > 0 {
      PowAdd(b, e - 1, f);
      assert Pow(b, e + f) == b * (Pow(b, e - 1) * Pow(b, f)) == Pow(b, e) * Pow(b, f);
    }
  }

  lemma {:induction false} PowMonotone(b: nat, e: nat, f: nat)
    requires b > 0 && e <= f
    ensures Pow(b, e) <= Pow(b, f)
  {
    if e < f {
      PowMonotone(b, e, f - 1);
      assert Pow(b, f) == b * Pow(b, f - 1) >= Pow(b, f - 1);
    }
  }

  lemma Shift(x: nat, p: nat, y: nat, radix: nat)
    ensures (x * p + y) * radix == x * (radix * p) + y * radix
  {
    calc {
      (x * p + y) * radix;
      (x * p) * radix + y * radix;
      { MulAssoc(x, p, radix); }
      x * (radix * p) + y * radix;
    }
  }

  lemma MulAssoc(x: nat, p: nat, radix: nat)
    ensures (x * p) * radix == x * (radix * p)
  {
    assert p * radix == radix * p;
  }

  lemma {:induction false} ValueAppend(a: string, b: string, radix: nat)
    requires AllDigits(a, radix) && AllDigits(b, radix)
    ensures AllDigits(a + b, radix)
    ensures Value(a + b, radix) == Value(a, radix) * Pow(radix, |b|) + Value(b, radix)
  {
    if b == [] {
      assert a + b == a;
    } else {
      var b' := b[..|b| - 1];
      ValueAppend(a, b', radix);
      assert (a + b)[..|a + b| - 1] == a + b';
      var d := Digit(b[|b| - 1]);
      assert Value(a + b, radix) == Value(a + b', radix) * radix + d;
      assert Value(b, radix) == Value(b', radix) * radix + d;
      Shift(Value(a, radix), Pow(radix, |b'|), Value(b', radix), radix);
    }
  }

  lemma {:induction false} ValueBound(s: string, radix: nat)
    requires AllDigits(s, radix) && (radix == 10 || radix == 16)
    ensures Value(s, radix) < Pow(radix, |s|)
  {
    if s != [] {
      ValueBound(s[..|s| - 1], radix);
      assert Pow(radix, |s|) == radix * Pow(radix, |s| - 1);
    }
  }

  function DigitChar(d: nat): (c: char)
    requires d < 10
    ensures IsDigit(c) && Digit(c) == d
  {
    ('0' as int + d) as char
  }

  /** `to_string` of an unsigned integer. */
  function Dec(n: nat): (s: string)
    ensures s != [] && AllDigits(s, 10)
  {
    if n < 10 then [DigitChar(n)] else Dec(n / 10) + [DigitChar(n % 10)]
  }

  lemma {:induction false} DecValue(n: nat)
    ensures Value(Dec(n), 10) == n
    ensures n > 0 ==> Dec(n)[0] != '0'
  {
    if n < 10 {
      assert Dec(n)[..0] == [];
    } else {
      DecValue(n / 10);
      assert Dec(n)[..|Dec(n)| - 1] == Dec(n / 10);
    }
  }

  /** The one spelling `to_string` produces: no leading zero, except for zero itself. */
  predicate Canonical(s: string) {
    AllDigits(s, 10) && (s == "0" || (s != [] && s[0] != '0'))
  }

  lemma {:induction false} CanonicalPositive(s: string)
    requires Canonical(s) && s != "0"
    ensures Value(s, 10) >= 1 && (|s| > 1 ==> Value(s, 10) >= 10)
  {
    if |s| > 1 {
      CanonicalPositive(s[..|s| - 1]);
    } else {
      assert s[..0] == [];
    }
  }

  /** Printing what a text denotes gives the text back exactly when it was canonical. */
  lemma {:induction false} DecOfValue(s: string)
    requires AllDigits(s, 10)
    ensures Dec(Value(s, 10)) == s <==> Canonical(s)
  {
    if Canonical(s) {
      if |s| == 1 {
        assert s[..0] == [];
        assert s == [DigitChar(Value(s, 10))];
      } else {
        var t := s[..|s| - 1];
        CanonicalPositive(s);
        assert Canonical(t);
        DecOfValue(t);
        var v, d := Value(t, 10), Digit(s[|s| - 1]);
        assert Value(s, 10) == 10 * v + d;
        assert (10 * v + d) / 10 == v && (10 * v + d) % 10 == d;
        assert s == t + [DigitChar(d)];
      }
    }
    if Dec(Value(s, 10)) == s {
      DecValue(Value(s, 10));
      if Value(s, 10) == 0 { assert s == "0"; }
    }
  }

  function Zeros(k: nat): (s: string)
    ensures |s| == k && AllDigits(s, 10)
  {
    seq(k, i => '0')
  }

  lemma {:induction false} ZerosValue(k: nat)
    ensures Value(Zeros(k), 10) == 0
  {
    if k > 0 {
      ZerosValue(k - 1);
      assert Zeros(k)[..k - 1] == Zeros(k - 1);
    }
  }

  /** `{:0width$}`: at least `width` digits. */
  function Padded(n: nat, width: nat): (s: string)
    ensures AllDigits(s, 10) && |s| >= width
  {
    var d := Dec(n);
    if |d| >= width then d else Zeros(width - |d|) + d
  }

  lemma PaddedValue(n: nat, width: nat)
    requires n < Pow(10, width) && width > 0
    ensures |Padded(n, width)| == width && Value(Padded(n, width), 10) == n
  {
    DecValue(n);
    DecLength(n, width);
    if |Dec(n)| < width {
      var z := Zeros(width - |Dec(n)|);
      ZerosValue(|z|);
      ValueAppend(z, Dec(n), 10);
    }
  }

  lemma {:induction false} DecLength(n: nat, width: nat)
    requires n < Pow(10, width) && width > 0
    ensures |Dec(n)| <= width
  {
    if n >= 10 {
      assert Pow(10, width) == 10 * Pow(10, width - 1);
      assert Pow(10, 0) == 1;
      DecLength(n / 10, width - 1);
    }
  }

  /** `<uN>::from_str_radix`, with `max` the largest value of the type. One leading `+` is taken. */
  function ParseUnsigned(s: string, radix: nat, max: nat): (r: Option<nat>)
    ensures r.Some? ==> r.value <= max
  {
    var body := if s != [] && s[0] == '+' then s[1..] else s;
    if body == [] || !AllDigits(body, radix) then None
    else if Value(body, radix) <= max then Some(Value(body, radix)) else None
  }

  /** `i64::from_str_radix`. */
  function ParseI64(s: string, radix: nat): (r: Option<int>)
    ensures r.Some? ==> I64_MIN <= r.value <= I64_MAX
  {
    var negative := s != [] && s[0] == '-';
    var body := if s != [] && (s[0] == '+' || s[0] == '-') then s[1..] else s;
    if body == [] || !AllDigits(body, radix) then None
    else
      var v: int := if negative then -(Value(body, radix) as int) else Value(body, radix);
      if I64_MIN <= v <= I64_MAX then Some(v) else None
  }

  /** The decimal-or-`0x` reading shared by the storage decoder and the diagnostics: the part after
      a `0x`/`0X` prefix is hexadecimal, anything else is decimal. */
  function HexBody(s: string): (r: Option<string>)
    ensures r.Some? <==> ("0x" <= s || "0X" <= s)
    ensures r.Some? ==> r.value == s[2..]
  {
    if "0x" <= s || "0X" <= s then Some(s[2..]) else None
  }
}
