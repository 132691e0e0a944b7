/** SHELL amounts as text (`params.rs`, `accumulator.rs`): two printers and one parser that undoes
    both, over every raw `u128` figure. */
module ShellAmount {
  import opened Wrappers
  import opened Text
  import opened Numerals

  const SHELL_UNIT: nat := 1_000_000_000

  datatype AmountError = Empty | TooFine | Signed | NotANumber | OutOfRange

  function StripZeros(s: string): (r: string) {
    if s != [] && s[|s| - 1] == '0' then StripZeros(s[..|s| - 1]) else s
  }

  /** `shell_amount`: whole SHELL, and the decimals without trailing zeros when there are any. */
  function Print(raw: nat): (s: string) {
    var whole, rest := raw / SHELL_UNIT, raw % SHELL_UNIT;
    if rest == 0 then Dec(whole) else Dec(whole) + "." + StripZeros(Padded(rest, 9))
  }

  method PrintAmount(raw: nat) returns (s: string)
    ensures s == Print(raw)
  {
    var whole, rest := raw / SHELL_UNIT, raw % SHELL_UNIT;
    if rest == 0 {
      return Dec(whole);
    }
    var decimals := Padded(rest, 9);
    while decimals != [] && decimals[|decimals| - 1] == '0'
      invariant StripZeros(decimals) == StripZeros(Padded(rest, 9))
      decreases |decimals|
    {
      decimals := decimals[..|decimals| - 1];
    }
    s := Dec(whole) + "." + decimals;
  }

  /** The accumulator's fixed-width rendering with nine decimals. */
  function PrintFixed(raw: nat): (s: string) {
    Dec(raw / SHELL_UNIT) + "." + Padded(raw % SHELL_UNIT, 9)
  }

  /** An integer part that may be left out. */
  function ParsePart(s: string): (r: Option<nat>) {
    if s == [] then Some(0) else ParseUnsigned(s, 10, U128_MAX)
  }

  /** `shell_amount_raw`. */
  function ParseAmount(text: string): (r: Result<nat, AmountError>) {
    ParseTrimmed(Trim(text))
  }

  function ParseTrimmed(t: string): (r: Result<nat, AmountError>) {
    if t == [] then Err(Empty) else ParseSplit(t, Halves(t).0, Halves(t).1)
  }

  /** What stands before and behind the first point. */
  function Halves(t: string): (r: (string, string)) {
    var dot := FindChar(t, '.', 0);
    if dot.None? then (t, []) else (t[..dot.value], t[dot.value + 1..])
  }

  function ParseSplit(t: string, whole: string, decimals: string): (r: Result<nat, AmountError>) {
    if ByteLen(decimals) > 9 then Err(TooFine)
    else if '+' in t then Err(Signed)
    else
      var w, d := ParsePart(whole), ParsePart(decimals);
      if w.None? || d.None? then Err(NotANumber)
      else
        var raw := w.value * SHELL_UNIT + d.value * Pow(10, 9 - ByteLen(decimals));
        if raw <= U128_MAX then Ok(raw) else Err(OutOfRange)
  }

  // ------------------------------------------------------------------ the grammar

  /** Digits, or digits around a point with at most nine behind it. */
  predicate Spelled(t: string, whole: string, decimals: string) {
    && t != [] && AllDigits(whole, 10) && AllDigits(decimals, 10) && |decimals| <= 9
    && (t == whole + "." + decimals || (t == whole && decimals == []))
  }

  function Denoted(whole: string, decimals: string): (raw: nat)
    requires AllDigits(whole, 10) && AllDigits(decimals, 10) && |decimals| <= 9
  {
    Value(whole, 10) * SHELL_UNIT + Value(decimals, 10) * Pow(10, 9 - |decimals|)
  }

  lemma {:induction false} DigitBytes(s: string)
    requires AllDigits(s, 10)
    ensures ByteLen(s) == |s|
  {
    if s != [] {
      assert IsDigitIn(s[0], 10) && AllDigits(s[1..], 10);
      DigitBytes(s[1..]);
    }
  }

  lemma PartExactly(s: string)
    requires '+' !in s
    ensures ParsePart(s) == if AllDigits(s, 10) && Value(s, 10) <= U128_MAX then Some(Value(s, 10)) else None
  {
  }

  lemma PointAt(whole: string, decimals: string)
    requires AllDigits(whole, 10)
    ensures var t := whole + "." + decimals;
            FindChar(t, '.', 0) == Some(|whole|) && t[..|whole|] == whole && t[|whole| + 1..] == decimals
  {
    var t := whole + "." + decimals;
    forall j | 0 <= j < |whole|
      ensures t[j] != '.'
    {
      assert IsDigitIn(whole[j], 10);
    }
    assert t[|whole|] == '.';
  }

  lemma NoPoint(whole: string)
    requires AllDigits(whole, 10)
    ensures FindChar(whole, '.', 0).None?
  {
    forall j | 0 <= j < |whole|
      ensures whole[j] != '.'
    {
      assert IsDigitIn(whole[j], 10);
    }
  }

  lemma SpelledHasNoSign(t: string, whole: string, decimals: string)
    requires Spelled(t, whole, decimals)
    ensures '+' !in t && '+' !in whole && '+' !in decimals
    ensures Trimmed(t)
  {
    forall j | 0 <= j < |t|
      ensures t[j] != '+' && !IsSpace(t[j])
    {
      if j < |whole| {
        assert IsDigitIn(whole[j], 10) && t[j] == whole[j];
      } else if j > |whole| {
        assert IsDigitIn(decimals[j - |whole| - 1], 10) && t[j] == decimals[j - |whole| - 1];
      }
    }
    forall c | c in whole || c in decimals
      ensures c != '+'
    {
      assert IsDigitIn(c, 10);
    }
  }

  /** A spelled amount in range is read as exactly what it denotes; out of range it is refused. */
  lemma ParsesSpelled(t: string, whole: string, decimals: string)
    requires Spelled(t, whole, decimals)
    ensures ParseTrimmed(t) ==
            if Denoted(whole, decimals) <= U128_MAX then Ok(Denoted(whole, decimals))
            else if Value(whole, 10) > U128_MAX then Err(NotANumber) else Err(OutOfRange)
  {
    HalvesOfSpelled(t, whole, decimals);
    ReadsSplit(t, whole, decimals);
    WholeBelow(whole, decimals);
  }

  lemma HalvesOfSpelled(t: string, whole: string, decimals: string)
    requires Spelled(t, whole, decimals)
    ensures Halves(t) == (whole, decimals)
  {
    if t == whole + "." + decimals {
      PointAt(whole, decimals);
    } else {
      NoPoint(whole);
    }
  }

  lemma WholeBelow(whole: string, decimals: string)
    requires AllDigits(whole, 10) && AllDigits(decimals, 10) && |decimals| <= 9
    ensures Value(whole, 10) <= Denoted(whole, decimals)
  {
    var scaled := Value(decimals, 10) * Pow(10, 9 - |decimals|);
    assert scaled >= 0;
  }

  lemma ReadsSplit(t: string, whole: string, decimals: string)
    requires Spelled(t, whole, decimals)
    ensures ParseSplit(t, whole, decimals) ==
            if Value(whole, 10) > U128_MAX then Err(NotANumber)
            else if Denoted(whole, decimals) <= U128_MAX then Ok(Denoted(whole, decimals)) else Err(OutOfRange)
  {
    SpelledHasNoSign(t, whole, decimals);
    DigitBytes(decimals);
    PartExactly(whole);
    PartExactly(decimals);
    DecimalsSmall(decimals);
  }

  lemma DecimalsSmall(decimals: string)
    requires AllDigits(decimals, 10) && |decimals| <= 9
    ensures Value(decimals, 10) < 1_000_000_000 == Pow(10, 9)
  {
    ValueBound(decimals, 10);
    PowMonotone(10, |decimals|, 9);
    NinePlaces();
  }

  lemma NinePlaces()
    ensures Pow(10, 9) == 1_000_000_000
  {
    assert Pow(10, 3) == 1000;
    PowAdd(10, 3, 3);
    PowAdd(10, 6, 3);
  }

  ghost predicate Amount(t: string, raw: nat) {
    raw <= U128_MAX && exists w, d :: Spelled(t, w, d) && Denoted(w, d) == raw
  }

  /** THE PARSER ACCEPTS EXACTLY THE GRAMMAR: digits, or digits around a point with up to nine behind
      it, whose value is a `u128`; and it returns that value. */
  lemma ParseExactly(text: string, raw: nat)
    ensures ParseAmount(text) == Ok(raw) <==> Amount(Trim(text), raw)
  {
    ParsesTrimmedExactly(Trim(text), raw);
  }

  lemma ParsesTrimmedExactly(t: string, raw: nat)
    ensures ParseTrimmed(t) == Ok(raw) <==> Amount(t, raw)
  {
    if w, d :| Spelled(t, w, d) && Denoted(w, d) == raw {
      ParsesSpelled(t, w, d);
    }
    if ParseTrimmed(t).Ok? {
      var whole, decimals := AcceptedHalves(t);
      ParsesSpelled(t, whole, decimals);
    }
  }

  lemma AcceptedHalves(t: string) returns (whole: string, decimals: string)
    requires ParseTrimmed(t).Ok?
    ensures Spelled(t, whole, decimals)
  {
    whole, decimals := Halves(t).0, Halves(t).1;
    AcceptedIsSpelled(t, whole, decimals, FindChar(t, '.', 0).Some?);
  }

  lemma AcceptedIsSpelled(t: string, whole: string, decimals: string, pointed: bool)
    requires t != [] && ParseSplit(t, whole, decimals).Ok?
    requires t == if pointed then whole + "." + decimals else whole
    requires !pointed ==> decimals == []
    ensures Spelled(t, whole, decimals)
  {
    assert '+' !in whole by {
      forall i | 0 <= i < |whole|
        ensures whole[i] != '+'
      {
        assert t[i] == whole[i];
      }
    }
    assert '+' !in decimals by {
      forall i | 0 <= i < |decimals|
        ensures decimals[i] != '+'
      {
        assert t[|whole| + 1 + i] == decimals[i];
      }
    }
    PartExactly(whole);
    PartExactly(decimals);
    DigitBytes(decimals);
  }

  // ------------------------------------------------------------------ what is no number

  predicate HoldsDigit(t: string) {
    exists i :: 0 <= i < |t| && IsDigit(t[i])
  }

  lemma HeldDigit(t: string, i: nat)
    requires i < |t| && IsDigit(t[i])
    ensures HoldsDigit(t)
  {
  }

  /** A NUMBER, EXACTLY: an accepted amount holds a digit if and only if its parts before and behind the
      point are not both empty; otherwise it is the lone point, and is read as zero. */
  lemma NumberExactly(text: string)
    requires ParseAmount(text).Ok?
    ensures var t := Trim(text);
            && (HoldsDigit(t) <==> Halves(t) != ([], []))
            && (!HoldsDigit(t) ==> t == "." && ParseAmount(text) == Ok(0))
  {
    var t := Trim(text);
    var w, d := AcceptedHalves(t);
    HalvesOfSpelled(t, w, d);
    if w != [] {
      assert IsDigitIn(w[0], 10) && t[0] == w[0];
      HeldDigit(t, 0);
    } else if d != [] {
      assert IsDigitIn(d[0], 10) && t[1] == d[0];
      HeldDigit(t, 1);
    } else {
      assert t == ".";
      ParsesSpelled(t, w, d);
    }
  }

  /** COUNTEREXAMPLE: a lone point is accepted. */
  lemma LonePointIsZero()
    ensures ParseAmount(".") == Ok(0) && !HoldsDigit(".")
  {
    TrimOfTrimmed(".");
    assert Spelled(".", [], []);
    ParsesSpelled(".", [], []);
  }

  // ------------------------------------------------------------------ round trips

  lemma {:induction false} StripZerosValue(s: string)
    requires AllDigits(s, 10)
    ensures var r := StripZeros(s);
            AllDigits(r, 10) && |r| <= |s| && Value(s, 10) == Value(r, 10) * Pow(10, |s| - |r|)
  {
    if s != [] && s[|s| - 1] == '0' {
      var t, r := s[..|s| - 1], StripZeros(s);
      StripZerosValue(t);
      assert Value(s, 10) == Value(t, 10) * 10;
      assert Pow(10, |s| - |r|) == 10 * Pow(10, |t| - |r|);
      MulAssoc(Value(r, 10), Pow(10, |t| - |r|), 10);
    }
  }

  lemma FixedDenotes(raw: nat)
    ensures var w, d := Dec(raw / SHELL_UNIT), Padded(raw % SHELL_UNIT, 9);
            Spelled(PrintFixed(raw), w, d) && |d| == 9 && Denoted(w, d) == raw
  {
    NinePlaces();
    DecValue(raw / SHELL_UNIT);
    PaddedValue(raw % SHELL_UNIT, 9);
    assert Pow(10, 0) == 1;
  }

  /** ROUND TRIP: the fixed-width rendering parses back to the same figure. */
  lemma FixedRoundTrip(raw: nat)
    requires raw <= U128_MAX
    ensures ParseAmount(PrintFixed(raw)) == Ok(raw)
    ensures |PrintFixed(raw)| == |Dec(raw / SHELL_UNIT)| + 10 && PrintFixed(raw)[|Dec(raw / SHELL_UNIT)|] == '.'
  {
    var w, d := Dec(raw / SHELL_UNIT), Padded(raw % SHELL_UNIT, 9);
    FixedDenotes(raw);
    SpelledHasNoSign(PrintFixed(raw), w, d);
    TrimOfTrimmed(PrintFixed(raw));
    ParsesSpelled(PrintFixed(raw), w, d);
  }

  lemma PrintDenotes(raw: nat)
    ensures var w := Dec(raw / SHELL_UNIT);
            var d := if raw % SHELL_UNIT == 0 then [] else StripZeros(Padded(raw % SHELL_UNIT, 9));
            Spelled(Print(raw), w, d) && Denoted(w, d) == raw
  {
    var rest := raw % SHELL_UNIT;
    FixedDenotes(raw);
    StripZerosValue(Padded(rest, 9));
    if rest == 0 {
      PaddedValue(0, 9);
    }
  }

  /** ROUND TRIP: every raw figure a `u128` holds is read back from the text it is printed as. */
  lemma PrintRoundTrip(raw: nat)
    requires raw <= U128_MAX
    ensures ParseAmount(Print(raw)) == Ok(raw)
  {
    var w := Dec(raw / SHELL_UNIT);
    var d := if raw % SHELL_UNIT == 0 then [] else StripZeros(Padded(raw % SHELL_UNIT, 9));
    PrintDenotes(raw);
    SpelledHasNoSign(Print(raw), w, d);
    TrimOfTrimmed(Print(raw));
    ParsesSpelled(Print(raw), w, d);
  }

  // ------------------------------------------------------------------ the one text that is printed

  /** A whole part without leading zeros, and decimals, if any, without trailing ones. */
  predicate Shortest(w: string, d: string) {
    Canonical(w) && AllDigits(d, 10) && |d| <= 9 && (d != [] ==> d[|d| - 1] != '0')
  }

  function Written(w: string, d: string): (t: string) {
    if d == [] then w else w + "." + d
  }

  lemma {:induction false} SameDigits(a: string, b: string)
    requires AllDigits(a, 10) && AllDigits(b, 10) && |a| == |b| && Value(a, 10) == Value(b, 10)
    ensures a == b
  {
    if a != [] {
      var n := |a| - 1;
      var u, v, x, y := Value(a[..n], 10), Value(b[..n], 10), Digit(a[n]), Digit(b[n]);
      assert IsDigitIn(a[n], 10) && IsDigitIn(b[n], 10);
      assert u * 10 + x == v * 10 + y;
      SameDigits(a[..n], b[..n]);
      assert a == a[..n] + [a[n]] && b == b[..n] + [b[n]];
    }
  }

  lemma {:induction false} StripsPadding(d: string, k: nat)
    requires d == [] || d[|d| - 1] != '0'
    ensures StripZeros(d + Zeros(k)) == d
  {
    var s := d + Zeros(k);
    if k == 0 {
      assert s == d;
    } else {
      StripsPadding(d, k - 1);
      assert s[..|s| - 1] == d + Zeros(k - 1) && s[|s| - 1] == '0';
    }
  }

  lemma PaddedDecimals(d: string)
    requires AllDigits(d, 10) && |d| <= 9
    ensures var s := d + Zeros(9 - |d|);
            AllDigits(s, 10) && |s| == 9 && Value(s, 10) == Value(d, 10) * Pow(10, 9 - |d|) < SHELL_UNIT
  {
    var z := Zeros(9 - |d|);
    ValueAppend(d, z, 10);
    ZerosValue(9 - |d|);
    ValueBound(d + z, 10);
    NinePlaces();
  }

  lemma WholeAndRest(w: nat, rest: nat, raw: nat)
    requires raw == w * SHELL_UNIT + rest && rest < SHELL_UNIT
    ensures raw / SHELL_UNIT == w && raw % SHELL_UNIT == rest
  {
  }

  /** The nine padded digits of a fraction are its decimals and zeros. */
  lemma FractionDigits(d: string, rest: nat)
    requires AllDigits(d, 10) && |d| <= 9 && rest == Value(d, 10) * Pow(10, 9 - |d|)
    ensures rest < SHELL_UNIT && Padded(rest, 9) == d + Zeros(9 - |d|)
  {
    var s := d + Zeros(9 - |d|);
    PaddedDecimals(d);
    NinePlaces();
    PaddedValue(rest, 9);
    SameDigits(s, Padded(rest, 9));
  }

  lemma FractionIsZeroExactly(d: string, rest: nat)
    requires AllDigits(d, 10) && |d| <= 9 && rest == Value(d, 10) * Pow(10, 9 - |d|)
    requires d != [] ==> d[|d| - 1] != '0'
    ensures rest == 0 <==> d == []
  {
    if d != [] {
      PaddedDecimals(d);
      NotAllZeros(d + Zeros(9 - |d|), |d| - 1);
    }
  }

  /** THE ONE TEXT: of all the ways to write a figure, the one without superfluous zeros is printed. */
  lemma PrintedExactly(w: string, d: string)
    requires Shortest(w, d)
    ensures Print(Denoted(w, d)) == Written(w, d)
  {
    var rest := Value(d, 10) * Pow(10, 9 - |d|);
    FractionDigits(d, rest);
    FractionIsZeroExactly(d, rest);
    StripsPadding(d, 9 - |d|);
    WholeAndRest(Value(w, 10), rest, Denoted(w, d));
    DecOfValue(w);
    PrintOf(Value(w, 10), rest, Denoted(w, d));
  }

  lemma PrintOf(whole: nat, rest: nat, raw: nat)
    requires raw / SHELL_UNIT == whole && raw % SHELL_UNIT == rest
    ensures Print(raw) == if rest == 0 then Dec(whole) else Dec(whole) + "." + StripZeros(Padded(rest, 9))
  {
  }

  lemma {:induction false} NotAllZeros(s: string, k: nat)
    requires AllDigits(s, 10) && k < |s| && s[k] != '0'
    ensures Value(s, 10) > 0
  {
    var n := |s| - 1;
    assert IsDigitIn(s[n], 10);
    if k < n {
      NotAllZeros(s[..n], k);
    }
  }
}
