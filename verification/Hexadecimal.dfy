/** Numbers as texts, in both notations the client reads: a printer over the table of digits, and what the
    readers make of its texts. */
module Hexadecimal {
  import opened Wrappers
  import opened Text
  import opened Numerals
  import opened Alphabets
  import opened Json
  import opened ExitCodes
  import opened WithdrawGate

  /** The digits of `n` in base sixteen, from the table. */
  function Hex(n: nat): (s: string)
    ensures s != []
  {
    if n < 16 then [HEX_DIGITS[n]] else Hex(n / 16) + [HEX_DIGITS[n % 16]]
  }

  lemma {:induction false} HexDigitsOnly(n: nat)
    ensures AllDigits(Hex(n), 16)
  {
    DigitOfTable(n % 16);
    if n >= 16 {
      HexDigitsOnly(n / 16);
    }
  }

  /** ROUND TRIP: a printed number denotes itself. */
  lemma {:induction false} HexValue(n: nat)
    ensures AllDigits(Hex(n), 16) && Value(Hex(n), 16) == n
  {
    HexDigitsOnly(n);
    DigitOfTable(n % 16);
    var s := Hex(n);
    if n < 16 {
      assert s[..0] == [] && s[|s| - 1] == HEX_DIGITS[n];
    } else {
      HexValue(n / 16);
      assert s[..|s| - 1] == Hex(n / 16) && s[|s| - 1] == HEX_DIGITS[n % 16];
    }
  }

  lemma {:induction false} LowerAppend(a: string, b: string)
    ensures Lower(a + b) == Lower(a) + Lower(b)
  {
    if a == [] {
      assert a + b == b;
    } else {
      LowerAppend(a[1..], b);
      assert (a + b)[1..] == a[1..] + b;
    }
  }

  lemma LowerLast(s: string)
    requires s != []
    ensures Lower(s)[..|s| - 1] == Lower(s[..|s| - 1]) && Lower(s)[|s| - 1] == LowerChar(s[|s| - 1])
  {
    var a, b := s[..|s| - 1], [s[|s| - 1]];
    assert s == a + b;
    LowerAppend(a, b);
    assert b[1..] == [] && Lower(b) == [LowerChar(b[0])];
  }

  lemma DigitInEitherCase(c: char)
    ensures IsHexDigit(LowerChar(c)) <==> IsHexDigit(c)
    ensures IsHexDigit(c) ==> Digit(LowerChar(c)) == Digit(c)
  {
    DigitExactly(c);
    DigitExactly(LowerChar(c));
  }

  /** The case of a digit does not matter. */
  lemma {:induction false} ValueInEitherCase(s: string)
    ensures AllDigits(Lower(s), 16) <==> AllDigits(s, 16)
    ensures AllDigits(s, 16) ==> Value(Lower(s), 16) == Value(s, 16)
  {
    if s != [] {
      var a, c := s[..|s| - 1], s[|s| - 1];
      LowerLast(s);
      ValueInEitherCase(a);
      DigitInEitherCase(c);
      SnocDigits(s);
      SnocDigits(Lower(s));
    }
  }

  lemma SnocDigits(s: string)
    requires s != []
    ensures AllDigits(s, 16) <==> AllDigits(s[..|s| - 1], 16) && IsHexDigit(s[|s| - 1])
  {
    forall i | 0 <= i < |s| && AllDigits(s[..|s| - 1], 16) && IsHexDigit(s[|s| - 1])
      ensures IsDigitIn(s[i], 16)
    {
      if i < |s| - 1 {
        assert s[..|s| - 1][i] == s[i];
      }
    }
    if AllDigits(s, 16) {
      assert IsDigitIn(s[|s| - 1], 16);
    }
  }

  /** Any hexadecimal text of `n`: its digits in either case, behind any zeros. */
  ghost predicate HexOf(h: string, n: nat) {
    exists k: nat :: Lower(h) == Zeros(k) + Hex(n)
  }

  lemma {:induction false} LeadingZeros(k: nat, s: string)
    requires AllDigits(s, 16)
    ensures AllDigits(Zeros(k) + s, 16) && Value(Zeros(k) + s, 16) == Value(s, 16)
  {
    var z := Zeros(k);
    assert AllDigits(z, 16) by {
      assert forall i :: 0 <= i < k ==> z[i] == '0';
    }
    ZerosAreZero(k);
    ValueAppend(z, s, 16);
  }

  lemma {:induction false} ZerosAreZero(k: nat)
    ensures AllDigits(Zeros(k), 16) && Value(Zeros(k), 16) == 0
  {
    assert forall i :: 0 <= i < k ==> Zeros(k)[i] == '0';
    if k > 0 {
      ZerosAreZero(k - 1);
      assert Zeros(k)[..k - 1] == Zeros(k - 1);
    }
  }

  lemma {:induction false} LowerOfHex(n: nat)
    ensures Lower(Hex(n)) == Hex(n)
  {
    var d := HEX_DIGITS[n % 16];
    HexDigitAt(n % 16);
    assert [d][1..] == [] && Lower([d]) == [LowerChar(d)] == [d];
    if n >= 16 {
      LowerOfHex(n / 16);
      LowerAppend(Hex(n / 16), [d]);
    }
  }

  lemma HexIsHexOf(n: nat)
    ensures HexOf(Hex(n), n)
  {
    LowerOfHex(n);
    assert Zeros(0) + Hex(n) == Hex(n);
  }

  lemma HexOfValue(h: string, n: nat)
    requires HexOf(h, n)
    ensures h != [] && AllDigits(h, 16) && Value(h, 16) == n
  {
    var k: nat :| Lower(h) == Zeros(k) + Hex(n);
    HexValue(n);
    LeadingZeros(k, Hex(n));
    ValueInEitherCase(h);
  }

  /** The other spellings of a number, and the same number on either side of a sign. */
  lemma HexSign(h: string, n: nat)
    requires HexOf(h, n)
    ensures h[0] != '+' && h[0] != '-'
  {
    HexOfValue(h, n);
    assert IsDigitIn(h[0], 16);
  }

  lemma PrefixedTrim(h: string, n: nat)
    requires HexOf(h, n)
    ensures Trim("0x" + h) == "0x" + h && HexBody("0x" + h) == Some(h)
  {
    HexOfValue(h, n);
    var s := "0x" + h;
    assert IsDigitIn(h[|h| - 1], 16) && s[|s| - 1] == h[|h| - 1];
    TrimOfTrimmed(s);
    assert s[2..] == h;
  }

  /** READ BACK: the gate reader reads every `u128` from its hexadecimal and from its decimal text. */
  lemma ReadUintBack(h: string, n: nat)
    requires n <= U128_MAX && HexOf(h, n)
    ensures ReadUint(Str("0x" + h)) == Some(n) && ReadUint(Str(Dec(n))) == Some(n)
  {
    HexOfValue(h, n);
    HexSign(h, n);
    PrefixedTrim(h, n);
    DecPlain(n);
  }

  lemma DecPlain(n: nat)
    ensures Value(Dec(n), 10) == n && Trim(Dec(n)) == Dec(n) && HexBody(Dec(n)).None?
    ensures Dec(n)[0] != '+' && Dec(n)[0] != '-'
  {
    var s := Dec(n);
    DecValue(n);
    assert IsDigitIn(s[0], 10) && IsDigitIn(s[|s| - 1], 10);
    TrimOfTrimmed(s);
    if |s| > 1 {
      assert IsDigitIn(s[1], 10);
    }
  }

  /** READ BACK: the code reader reads every code of an `i64` from its hexadecimal and decimal texts, and
      its negative from the decimal text behind a minus. */
  lemma ReadCodeBack(h: string, n: nat)
    requires n <= I64_MAX && HexOf(h, n)
    ensures ReadCode(Str("0x" + h)) == Some(n) && ReadCode(Str(Dec(n))) == Some(n)
    ensures ReadCode(Str("-" + Dec(n))) == Some(-(n as int))
  {
    HexOfValue(h, n);
    HexSign(h, n);
    PrefixedTrim(h, n);
    DecPlain(n);
    NegativePlain(n);
  }

  lemma NegativePlain(n: nat)
    ensures Trim("-" + Dec(n)) == "-" + Dec(n) && HexBody("-" + Dec(n)).None? && ("-" + Dec(n))[1..] == Dec(n)
  {
    var s := "-" + Dec(n);
    assert IsDigitIn(Dec(n)[|Dec(n)| - 1], 10) && s[|s| - 1] == Dec(n)[|Dec(n)| - 1];
    TrimOfTrimmed(s);
  }
}
