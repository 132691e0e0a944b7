/** Which characters the client means by a letter, a name, a blank, a hexadecimal digit: each class spelled
    out, apart from the comparisons that decide it. */
module Alphabets {
  import opened Text
  import opened Numerals

  const LOWER_CASE: string := "abcdefghijklmnopqrstuvwxyz"
  const UPPER_CASE: string := "ABCDEFGHIJKLMNOPQRSTUVWXYZ"
  const NAME_START: string := LOWER_CASE + UPPER_CASE + "_"
  const HEX_DIGITS: string := "0123456789abcdef"

  lemma LowerCaseAt(k: nat)
    requires k < 26
    ensures LOWER_CASE[k] == ('a' as int + k) as char
  {
  }

  lemma UpperCaseAt(k: nat)
    requires k < 26
    ensures UPPER_CASE[k] == ('A' as int + k) as char
  {
  }

  lemma LowerCaseExactly(c: char)
    ensures c in LOWER_CASE <==> 'a' <= c <= 'z'
  {
    if 'a' <= c <= 'z' {
      LowerCaseAt(c as int - 'a' as int);
    }
    if c in LOWER_CASE {
      var k :| 0 <= k < 26 && LOWER_CASE[k] == c;
      LowerCaseAt(k);
    }
  }

  lemma UpperCaseExactly(c: char)
    ensures c in UPPER_CASE <==> 'A' <= c <= 'Z'
  {
    if 'A' <= c <= 'Z' {
      UpperCaseAt(c as int - 'A' as int);
    }
    if c in UPPER_CASE {
      var k :| 0 <= k < 26 && UPPER_CASE[k] == c;
      UpperCaseAt(k);
    }
  }

  lemma NameStartExactly(c: char)
    ensures c in NAME_START <==> 'a' <= c <= 'z' || 'A' <= c <= 'Z' || c == '_'
  {
    LowerCaseExactly(c);
    UpperCaseExactly(c);
    assert c in NAME_START <==> c in LOWER_CASE || c in UPPER_CASE || c in "_";
  }

  /** Lower-casing maps the one alphabet onto the other, letter by letter, and leaves every other
      character alone. */
  lemma LowerCharExactly(c: char, k: nat)
    requires k < 26
    ensures LowerChar(UPPER_CASE[k]) == LOWER_CASE[k]
    ensures c !in UPPER_CASE ==> LowerChar(c) == c
  {
    UpperCaseAt(k);
    LowerCaseAt(k);
    UpperCaseExactly(c);
  }

  /** The blanks that trimming removes: Unicode `White_Space`. */
  lemma SpaceExactly(c: char)
    ensures IsSpace(c) <==>
            c in "\t\n\U{0B}\U{0C}\r \U{85}\U{A0}\U{1680}\U{2000}\U{2001}\U{2002}\U{2003}\U{2004}\U{2005}\U{2006}"
               + "\U{2007}\U{2008}\U{2009}\U{200A}\U{2028}\U{2029}\U{202F}\U{205F}\U{3000}"
  {
  }

  lemma HexDigitAt(d: nat)
    requires d < 16
    ensures HEX_DIGITS[d] == if d < 10 then ('0' as int + d) as char else ('a' as int + (d - 10)) as char
  {
  }

  /** What a digit is worth: its place in the table, in either case. */
  lemma DigitExactly(c: char)
    ensures IsHexDigit(c) <==> LowerChar(c) in HEX_DIGITS
    ensures IsHexDigit(c) ==> HEX_DIGITS[Digit(c)] == LowerChar(c)
  {
    if IsHexDigit(c) {
      HexDigitAt(Digit(c));
    }
    if LowerChar(c) in HEX_DIGITS {
      var d :| 0 <= d < 16 && HEX_DIGITS[d] == LowerChar(c);
      HexDigitAt(d);
    }
  }

  lemma DigitOfTable(d: nat)
    requires d < 16
    ensures IsHexDigit(HEX_DIGITS[d]) && Digit(HEX_DIGITS[d]) == d
  {
    HexDigitAt(d);
  }

  /** What `k` bytes of UTF-8 can hold. */
  function Capacity(k: nat): (n: nat) {
    if k == 1 then 0x80 else if k == 2 then 0x800 else if k == 3 then 0x10000 else 0x200000
  }

  /** The width of a character is the least number of bytes that holds it. */
  lemma WidthIsLeast(c: char, k: nat)
    requires 1 <= k <= 4
    ensures (c as int) < Capacity(k) <==> Utf8Width(c) <= k
  {
  }
}
