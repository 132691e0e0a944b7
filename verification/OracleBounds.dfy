/** The offline check of an oracle market (`oracle_manifest.rs`): `uint256` prices are compared as
    decimal text, without big integers, and the comparison is the numeric one. */
module OracleBounds {
  import opened Wrappers
  import opened Text
  import opened Numerals
  import opened Alphabets

  datatype Ordering = Less | Equal | Greater

  function Compare(x: int, y: int): (o: Ordering) {
    if x < y then Less else if x == y then Equal else Greater
  }

  const UINT256_MAX: nat := 0xFFFF_FFFF_FFFF_FFFF_FFFF_FFFF_FFFF_FFFF_FFFF_FFFF_FFFF_FFFF_FFFF_FFFF_FFFF_FFFF

  /** `2^256 - 1` as the 78 digits the client compares with. */
  const UINT256_MAX_DEC: string :=
    "1157920892373" + "1619542357098" + "5008687907853" + "2699846656405" + "6403945758400" + "7913129639935"

  /** `trim_start_matches('0')`. */
  function StripLeading(s: string): (r: string)
    ensures AllDigits(s, 10) ==> AllDigits(r, 10)
    ensures r != [] ==> r[0] != '0'
  {
    if s != [] && s[0] == '0' then StripLeading(s[1..]) else s
  }

  /** `str::cmp`. */
  function Lexical(a: string, b: string): (o: Ordering) {
    if a == [] then (if b == [] then Equal else Less)
    else if b == [] then Greater
    else if a[0] != b[0] then Compare(a[0] as int, b[0] as int)
    else Lexical(a[1..], b[1..])
  }

  /** `cmp_uint_dec`. */
  function CompareDec(a: string, b: string): (o: Ordering)
    requires AllDigits(a, 10) && AllDigits(b, 10)
  {
    var a, b := StripLeading(a), StripLeading(b);
    if |a| != |b| then Compare(|a|, |b|) else Lexical(a, b)
  }

  lemma FirstDigit(s: string)
    requires AllDigits(s, 10) && s != []
    ensures AllDigits(s[1..], 10)
    ensures Value(s, 10) == Digit(s[0]) * Pow(10, |s| - 1) + Value(s[1..], 10)
    ensures Value(s[1..], 10) < Pow(10, |s| - 1)
  {
    assert s == [s[0]] + s[1..];
    ValueAppend([s[0]], s[1..], 10);
    assert [s[0]][..0] == [];
    assert Value([s[0]], 10) == Digit(s[0]);
    ValueBound(s[1..], 10);
  }

  lemma {:induction false} StripKeepsValue(s: string)
    requires AllDigits(s, 10)
    ensures Value(StripLeading(s), 10) == Value(s, 10)
  {
    if s != [] && s[0] == '0' {
      FirstDigit(s);
      StripKeepsValue(s[1..]);
    }
  }

  lemma LeadingDigitDecides(x: nat, y: nat, p: nat, u: nat, v: nat)
    requires x < y && u < p
    ensures x * p + u < y * p + v
  {
    assert (x + 1) * p <= y * p;
    assert (x + 1) * p == x * p + p;
  }

  lemma {:induction false} LexicalIsNumeric(a: string, b: string)
    requires AllDigits(a, 10) && AllDigits(b, 10) && |a| == |b|
    ensures Lexical(a, b) == Compare(Value(a, 10), Value(b, 10))
  {
    if a != [] {
      FirstDigit(a);
      FirstDigit(b);
      var p, u, v := Pow(10, |a| - 1), Value(a[1..], 10), Value(b[1..], 10);
      if a[0] == b[0] {
        LexicalIsNumeric(a[1..], b[1..]);
      } else if a[0] < b[0] {
        LeadingDigitDecides(Digit(a[0]), Digit(b[0]), p, u, v);
      } else {
        LeadingDigitDecides(Digit(b[0]), Digit(a[0]), p, v, u);
      }
    }
  }

  lemma LongerIsLarger(a: string, b: string)
    requires AllDigits(a, 10) && AllDigits(b, 10) && |a| < |b| && b[0] != '0'
    ensures Value(a, 10) < Value(b, 10)
  {
    ValueBound(a, 10);
    PowMonotone(10, |a|, |b| - 1);
    FirstDigit(b);
    LeadingDigitDecides(0, Digit(b[0]), Pow(10, |b| - 1), Value(a, 10), Value(b[1..], 10));
  }

  /** REFINED: comparing the texts is comparing the numbers, whatever zeros they start with. */
  lemma CompareIsNumeric(a: string, b: string)
    requires AllDigits(a, 10) && AllDigits(b, 10)
    ensures CompareDec(a, b) == Compare(Value(a, 10), Value(b, 10))
  {
    StripKeepsValue(a);
    StripKeepsValue(b);
    var x, y := StripLeading(a), StripLeading(b);
    if |x| < |y| {
      LongerIsLarger(x, y);
    } else if |y| < |x| {
      LongerIsLarger(y, x);
    } else {
      LexicalIsNumeric(x, y);
    }
  }

  /** `is_uint256_dec`. */
  predicate IsUint256Dec(s: string) {
    s != [] && AllDigits(s, 10) && (MaxDecDigits(); CompareDec(s, UINT256_MAX_DEC) != Greater)
  }

  lemma MaxDecDigits()
    ensures AllDigits(UINT256_MAX_DEC, 10)
  {
  }

  const E13: nat := 10_000_000_000_000

  /** What the first `i` digits denote. */
  function Upto(s: string, i: nat): (n: nat)
    requires i <= |s| && AllDigits(s, 10)
  {
    if i == 0 then 0 else Upto(s, i - 1) * 10 + Digit(s[i - 1])
  }

  lemma {:induction false} UptoIsValue(s: string, i: nat)
    requires i <= |s| && AllDigits(s, 10)
    ensures Upto(s, i) == Value(s[..i], 10)
  {
    if i > 0 {
      UptoIsValue(s, i - 1);
      assert s[..i][..i - 1] == s[..i - 1];
    }
  }

  function Three(s: string, i: nat): (n: nat)
    requires i + 3 <= |s| && AllDigits(s, 10)
  {
    Digit(s[i]) * 100 + Digit(s[i + 1]) * 10 + Digit(s[i + 2])
  }

  lemma UptoThree(s: string, i: nat)
    requires i + 3 <= |s| && AllDigits(s, 10)
    ensures Upto(s, i + 3) == Upto(s, i) * 1000 + Three(s, i)
  {
    assert Upto(s, i + 1) == Upto(s, i) * 10 + Digit(s[i]);
    assert Upto(s, i + 2) == Upto(s, i + 1) * 10 + Digit(s[i + 1]);
    assert Upto(s, i + 3) == Upto(s, i + 2) * 10 + Digit(s[i + 2]);
  }

  /** Thirteen digits in groups of one and three. */
  lemma Thirteen(s: string, a: nat, b: nat, c: nat, d: nat, e: nat)
    requires |s| == 13 && AllDigits(s, 10)
    requires a == Digit(s[0]) && b == Three(s, 1) && c == Three(s, 4) && d == Three(s, 7) && e == Three(s, 10)
    ensures Value(s, 10) == (((a * 1000 + b) * 1000 + c) * 1000 + d) * 1000 + e
  {
    UptoIsValue(s, 13);
    assert s[..13] == s;
    assert Upto(s, 1) == a;
    UptoThree(s, 1);
    UptoThree(s, 4);
    UptoThree(s, 7);
    UptoThree(s, 10);
  }

  lemma Chunk(a: string, b: string)
    requires AllDigits(a, 10) && AllDigits(b, 10) && |b| == 13
    ensures AllDigits(a + b, 10) && Value(a + b, 10) == Value(a, 10) * E13 + Value(b, 10)
  {
    ValueAppend(a, b, 10);
    assert Pow(10, 13) == E13;
  }

  lemma HighChunks()
    ensures AllDigits("1157920892373", 10) && Value("1157920892373", 10) == 1157920892373
    ensures AllDigits("1619542357098", 10) && Value("1619542357098", 10) == 1619542357098
  {
    Thirteen("1157920892373", 1, 157, 920, 892, 373);
    Thirteen("1619542357098", 1, 619, 542, 357, 98);
  }

  lemma MiddleChunks()
    ensures AllDigits("5008687907853", 10) && Value("5008687907853", 10) == 5008687907853
    ensures AllDigits("2699846656405", 10) && Value("2699846656405", 10) == 2699846656405
  {
    Thirteen("5008687907853", 5, 8, 687, 907, 853);
    Thirteen("2699846656405", 2, 699, 846, 656, 405);
  }

  lemma LowChunks()
    ensures AllDigits("6403945758400", 10) && Value("6403945758400", 10) == 6403945758400
    ensures AllDigits("7913129639935", 10) && Value("7913129639935", 10) == 7913129639935
  {
    Thirteen("6403945758400", 6, 403, 945, 758, 400);
    Thirteen("7913129639935", 7, 913, 129, 639, 935);
  }

  /** The literal is `2^256 - 1`. */
  lemma MaxDecValue()
    ensures AllDigits(UINT256_MAX_DEC, 10) && Value(UINT256_MAX_DEC, 10) == UINT256_MAX
  {
    HighChunks();
    MiddleChunks();
    LowChunks();
    var a := "1157920892373" + "1619542357098";
    Chunk("1157920892373", "1619542357098");
    var b := a + "5008687907853";
    Chunk(a, "5008687907853");
    var c := b + "2699846656405";
    Chunk(b, "2699846656405");
    var d := c + "6403945758400";
    Chunk(c, "6403945758400");
    Chunk(d, "7913129639935");
  }

  /** EXACT: the decimal texts accepted are the non-empty digit strings up to `2^256 - 1`. */
  lemma Uint256DecExactly(s: string)
    ensures IsUint256Dec(s) <==> s != [] && AllDigits(s, 10) && Value(s, 10) <= UINT256_MAX
  {
    MaxDecValue();
    if AllDigits(s, 10) {
      CompareIsNumeric(s, UINT256_MAX_DEC);
    }
  }

  /** `is_uint256_hex`. */
  predicate IsUint256Hex(s: string) {
    "0x" <= s && 1 <= |s[2..]| <= 64 && AllDigits(s[2..], 16)
  }

  /** EXACT: a hexadecimal text is accepted if and only if it is `0x` and one to 64 characters of the table
      of digits, in either case. */
  lemma Uint256HexExactly(s: string)
    ensures IsUint256Hex(s) <==>
            exists h :: s == "0x" + h && 1 <= |h| <= 64 && forall i :: 0 <= i < |h| ==> LowerChar(h[i]) in HEX_DIGITS
  {
    if "0x" <= s {
      var h := s[2..];
      assert s == "0x" + h;
      HexTable(h);
    }
    if h :| s == "0x" + h && 1 <= |h| <= 64 && forall i :: 0 <= i < |h| ==> LowerChar(h[i]) in HEX_DIGITS {
      assert s[2..] == h;
      HexTable(h);
    }
  }

  lemma HexTable(h: string)
    ensures AllDigits(h, 16) <==> forall i :: 0 <= i < |h| ==> LowerChar(h[i]) in HEX_DIGITS
  {
    forall i | 0 <= i < |h|
      ensures IsDigitIn(h[i], 16) <==> LowerChar(h[i]) in HEX_DIGITS
    {
      DigitExactly(h[i]);
    }
  }

  lemma Doubled(e: nat, p: nat)
    requires Pow(16, e) == p
    ensures Pow(16, 2 * e) == p * p
  {
    PowAdd(16, e, e);
  }

  lemma SixteenPowers()
    ensures Pow(16, 64) == UINT256_MAX + 1
  {
    assert Pow(16, 4) == 0x1_0000;
    Doubled(4, 0x1_0000);
    Doubled(8, 0x1_0000_0000);
    Doubled(16, 0x1_0000_0000_0000_0000);
    Doubled(32, 0x1_0000_0000_0000_0000_0000_0000_0000_0000);
  }

  /** SOUND: a hexadecimal text that is accepted denotes a `uint256`. */
  lemma Uint256HexFits(s: string)
    requires IsUint256Hex(s)
    ensures Value(s[2..], 16) <= UINT256_MAX
  {
    SixteenPowers();
    ValueBound(s[2..], 16);
    PowMonotone(16, |s[2..]|, 64);
  }

  // ----- the manifest -----

  datatype Manifest = Manifest(
    rootOracle: string, oracle: string, oracleEventList: string, pmp: string, inferenceOrderBook: string,
    eventName: string, frameModel: string, eventId: string, oracleListHash: string,
    bounds: seq<string>, outcomeNames: seq<string>)

  /** The fields that must merely be filled in, in the order they are looked at. */
  function Named(m: Manifest): (fields: seq<string>) {
    [m.rootOracle, m.oracle, m.oracleEventList, m.pmp, m.inferenceOrderBook, m.eventName, m.frameModel]
  }

  function Ids(m: Manifest): (ids: seq<string>) {
    [m.eventId, m.oracleListHash]
  }

  datatype Fault =
    | EmptyField(i: nat) | EmptyId(i: nat) | BadId(i: nat) | NoBounds | BadBound(i: nat) | NotIncreasing(i: nat)
    | WrongOutcomes | TooManyOutcomes

  predicate IsUint256(s: string) {
    IsUint256Hex(s) || IsUint256Dec(s)
  }

  predicate Filled(s: string) {
    !Blank(s)
  }

  ghost predicate IsPrice(s: string) {
    s != [] && AllDigits(s, 10) && Value(s, 10) <= UINT256_MAX
  }

  ghost function Price(s: string): (n: nat)
    requires IsPrice(s)
  {
    Value(s, 10)
  }

  /** The first `k` bounds are `uint256` prices, every earlier one below every later one. */
  ghost predicate RisingPrices(bounds: seq<string>, k: nat) {
    && k <= |bounds|
    && (forall i :: 0 <= i < k ==> IsPrice(bounds[i]))
    && (forall i, j :: 0 <= i < j < k ==> Price(bounds[i]) < Price(bounds[j]))
  }

  ghost predicate FieldsFilled(m: Manifest, k: nat) {
    k <= 7 && forall i :: 0 <= i < k ==> Filled(Named(m)[i])
  }

  ghost predicate IdsFit(m: Manifest, k: nat) {
    FieldsFilled(m, 7) && k <= 2 && forall i :: 0 <= i < k ==> IsUint256(Ids(m)[i])
  }

  ghost predicate BoundsRise(m: Manifest, k: nat) {
    IdsFit(m, 2) && m.bounds != [] && RisingPrices(m.bounds, k)
  }

  /** What the contract demands of a range event. */
  ghost predicate Deployable(m: Manifest) {
    BoundsRise(m, |m.bounds|) && |m.outcomeNames| == |m.bounds| + 1 < 20
  }

  /** The fault is there, and nothing looked at before it is at fault. */
  ghost predicate First(m: Manifest, f: Fault) {
    match f
    case EmptyField(i) => FieldsFilled(m, i) && i < 7 && Blank(Named(m)[i])
    case EmptyId(i) => IdsFit(m, i) && i < 2 && Blank(Ids(m)[i])
    case BadId(i) => IdsFit(m, i) && i < 2 && Filled(Ids(m)[i]) && !IsUint256(Ids(m)[i])
    case NoBounds => IdsFit(m, 2) && m.bounds == []
    case BadBound(i) => BoundsRise(m, i) && i < |m.bounds| && !IsPrice(m.bounds[i])
    case NotIncreasing(i) =>
      && BoundsRise(m, i) && 0 < i < |m.bounds|
      && IsPrice(m.bounds[i]) && Price(m.bounds[i]) <= Price(m.bounds[i - 1])
    case WrongOutcomes => BoundsRise(m, |m.bounds|) && |m.outcomeNames| != |m.bounds| + 1
    case TooManyOutcomes => BoundsRise(m, |m.bounds|) && |m.outcomeNames| == |m.bounds| + 1 >= 20
  }

  /** WHAT IS DEMANDED, field by field. */
  lemma DeployableExactly(m: Manifest)
    ensures Deployable(m) <==>
            && !Blank(m.rootOracle) && !Blank(m.oracle) && !Blank(m.oracleEventList) && !Blank(m.pmp)
            && !Blank(m.inferenceOrderBook) && !Blank(m.eventName) && !Blank(m.frameModel)
            && (IsUint256Hex(m.eventId) || IsUint256Dec(m.eventId))
            && (IsUint256Hex(m.oracleListHash) || IsUint256Dec(m.oracleListHash))
            && m.bounds != [] && RisingPrices(m.bounds, |m.bounds|)
            && |m.outcomeNames| == |m.bounds| + 1 && |m.bounds| < 19
  {
    var f, ids := Named(m), Ids(m);
    assert f[0] == m.rootOracle && f[1] == m.oracle && f[2] == m.oracleEventList && f[3] == m.pmp;
    assert f[4] == m.inferenceOrderBook && f[5] == m.eventName && f[6] == m.frameModel;
    assert ids[0] == m.eventId && ids[1] == m.oracleListHash;
  }

  lemma Uint256IsFilled(s: string)
    ensures IsUint256(s) ==> Filled(s)
  {
    if IsUint256(s) {
      assert !IsSpace(s[0]);
    }
  }

  /** A manifest with a first fault is not deployable. */
  lemma FaultRefuses(m: Manifest, f: Fault)
    requires First(m, f)
    ensures !Deployable(m)
  {
    match f
    case EmptyField(i) =>
    case EmptyId(i) => Uint256IsFilled(Ids(m)[i]);
    case BadId(i) =>
    case NoBounds =>
    case BadBound(i) =>
    case NotIncreasing(i) =>
    case WrongOutcomes =>
    case TooManyOutcomes =>
  }

  lemma PriceExactly(s: string)
    ensures IsUint256Dec(s) <==> IsPrice(s)
  {
    Uint256DecExactly(s);
  }

  lemma PricesCompare(a: string, b: string)
    requires IsPrice(a) && IsPrice(b)
    ensures CompareDec(a, b) == Greater <==> Price(b) < Price(a)
  {
    CompareIsNumeric(a, b);
  }

  lemma NextPrice(bounds: seq<string>, i: nat)
    requires RisingPrices(bounds, i) && i < |bounds| && IsPrice(bounds[i])
    requires i > 0 ==> Price(bounds[i - 1]) < Price(bounds[i])
    ensures RisingPrices(bounds, i + 1)
  {
  }

  /** `OracleMarketManifest::validate`. */
  method Validate(m: Manifest) returns (r: Result<(), Fault>)
    ensures r.Ok? <==> Deployable(m)
    ensures r.Err? ==> First(m, r.error)
  {
    r := Check(m);
    if r.Err? {
      FaultRefuses(m, r.error);
    }
  }

  /** Reports the first fault, or that there is none. */
  method Check(m: Manifest) returns (r: Result<(), Fault>)
    ensures if r.Ok? then Deployable(m) else First(m, r.error)
  {
    for i := 0 to 7
      invariant FieldsFilled(m, i)
    {
      TrimEmptyIffBlank(Named(m)[i]);
      if Trim(Named(m)[i]) == [] {
        return Err(EmptyField(i));
      }
    }
    for i := 0 to 2
      invariant IdsFit(m, i)
    {
      var id := Ids(m)[i];
      TrimEmptyIffBlank(id);
      if Trim(id) == [] {
        return Err(EmptyId(i));
      }
      if !IsUint256Hex(id) && !IsUint256Dec(id) {
        return Err(BadId(i));
      }
    }
    if |m.bounds| < 1 {
      return Err(NoBounds);
    }
    var prev := None;
    for i := 0 to |m.bounds|
      invariant BoundsRise(m, i)
      invariant prev == if i == 0 then None else Some(m.bounds[i - 1])
    {
      var b := m.bounds[i];
      PriceExactly(b);
      if !IsUint256Dec(b) {
        return Err(BadBound(i));
      }
      if prev.Some? {
        PricesCompare(b, prev.value);
        if CompareDec(b, prev.value) != Greater {
          return Err(NotIncreasing(i));
        }
      }
      NextPrice(m.bounds, i);
      prev := Some(b);
    }
    if |m.outcomeNames| != |m.bounds| + 1 {
      return Err(WrongOutcomes);
    }
    if |m.outcomeNames| >= 20 {
      return Err(TooManyOutcomes);
    }
    return Ok(());
  }
}
