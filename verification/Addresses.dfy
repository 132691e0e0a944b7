/** Addresses (`address.rs`): one parser for the canonical `<dapp>::<account>` and the legacy
    `0:<account>`, the printers, and the boundaries at which text enters and leaves the client. */
module Addresses {
  import opened Wrappers
  import opened Text
  import opened Numerals

  /** The DApp id every shared contract lives in. */
  const DEXDO_DAPP: string := Zeros(63) + "4"

  datatype Address = Address(dapp: string, account: string)

  datatype AddressError = BadHalves | BadLegacyAccount | NoKnownForm

  predicate IsHex64(s: string) {
    |s| == 64 && AllDigits(s, 16)
  }

  /** What the parser makes of the two halves. */
  function FromHalves(dapp: string, account: string): (r: Result<Address, AddressError>) {
    if IsHex64(dapp) && IsHex64(account) then Ok(Address(Lower(dapp), Lower(account))) else Err(BadHalves)
  }

  function FromLegacy(account: string): (r: Result<Address, AddressError>) {
    if IsHex64(account) then Ok(Address(DEXDO_DAPP, Lower(account))) else Err(BadLegacyAccount)
  }

  function ParseTrimmed(t: string): (r: Result<Address, AddressError>) {
    var halves := SplitOnce(t, "::");
    if halves.Some? then FromHalves(Trim(halves.value.0), Trim(halves.value.1))
    else if "0:" <= t then FromLegacy(t[2..])
    else Err(NoKnownForm)
  }

  /** `CanonicalAddress::parse`. */
  function Parse(s: string): (r: Result<Address, AddressError>) {
    ParseTrimmed(Trim(s))
  }

  /** `CanonicalAddress`'s `Display`. */
  function Display(a: Address): (s: string) {
    a.dapp + "::" + a.account
  }

  /** `CanonicalAddress::legacy`: the form the chain takes. */
  function Legacy(a: Address): (s: string) {
    "0:" + a.account
  }

  predicate IsLowerHex64(s: string) {
    IsHex64(s) && Lower(s) == s
  }

  /** Every address the parser can return. */
  predicate WellFormed(a: Address) {
    IsLowerHex64(a.dapp) && IsLowerHex64(a.account)
  }

  // ----- text facts -----

  predicate NoColon(s: string) {
    forall i :: 0 <= i < |s| ==> s[i] != ':'
  }

  lemma HexIsPlain(s: string)
    requires IsHex64(s)
    ensures NoColon(s) && Trimmed(s) && Trim(s) == s
  {
    assert IsHexDigit(s[0]) && IsHexDigit(s[63]);
    TrimOfTrimmed(s);
  }

  lemma {:induction false} LowerAt(s: string, i: nat)
    requires i < |s|
    ensures Lower(s)[i] == LowerChar(s[i])
  {
    if i > 0 {
      LowerAt(s[1..], i - 1);
    }
  }

  lemma LowerHex(s: string)
    requires IsHex64(s)
    ensures IsLowerHex64(Lower(s))
  {
    var l := Lower(s);
    forall i | 0 <= i < 64
      ensures IsHexDigit(l[i]) && LowerChar(l[i]) == l[i]
    {
      LowerAt(s, i);
      assert IsHexDigit(s[i]);
    }
    forall i | 0 <= i < 64
      ensures Lower(l)[i] == l[i]
    {
      LowerAt(l, i);
    }
    assert Lower(l) == l;
  }

  lemma DexdoIsHex()
    ensures IsLowerHex64(DEXDO_DAPP)
  {
    forall i | 0 <= i < 64
      ensures Lower(DEXDO_DAPP)[i] == DEXDO_DAPP[i]
    {
      LowerAt(DEXDO_DAPP, i);
    }
    assert Lower(DEXDO_DAPP) == DEXDO_DAPP;
  }

  lemma NoPairAt(t: string, j: nat)
    requires j + 1 < |t| ==> t[j] != ':' || t[j + 1] != ':'
    ensures !OccursAt(t, "::", j)
  {
    if j + 1 < |t| {
      var p := "::";
      assert t[j + 0] != p[0] || t[j + 1] != p[1];
    }
  }

  /** The first `::` is where a text without colons ends. */
  lemma SplitsAt(x: string, rest: string)
    requires NoColon(x)
    ensures SplitOnce(x + "::" + rest, "::") == Some((x, rest))
  {
    var t := x + "::" + rest;
    assert OccursAt(t, "::", |x|);
    assert forall j :: 0 <= j < |x| ==> t[j] == x[j];
    assert forall j: nat :: j < |x| ==> !OccursAt(t, "::", j) by {
      forall j: nat | j < |x|
        ensures !OccursAt(t, "::", j)
      {
        NoPairAt(t, j);
      }
    }
    assert t[..|x|] == x && t[|x| + 2..] == rest;
  }

  lemma NeverSplits(x: string, y: string)
    requires NoColon(x) && NoColon(y)
    ensures SplitOnce(x + ":" + y, "::").None?
  {
    var t := x + ":" + y;
    forall j: nat
      ensures !OccursAt(t, "::", j)
    {
      NoPairAt(t, j);
    }
  }

  // ----- the parser -----

  lemma ParseIsWellFormed(s: string)
    requires Parse(s).Ok?
    ensures WellFormed(Parse(s).value)
  {
    var t := Trim(s);
    var halves := SplitOnce(t, "::");
    if halves.Some? {
      LowerHex(Trim(halves.value.0));
      LowerHex(Trim(halves.value.1));
    } else {
      LowerHex(t[2..]);
      DexdoIsHex();
    }
  }

  /** `s` spells `a` canonically: two halves in either case, with blanks anywhere around them. */
  ghost predicate SpellsCanonical(s: string, a: Address) {
    exists x, d, y, c ::
      s == x + "::" + y && Around(x, d) && Around(y, c) && IsHex64(d) && IsHex64(c) && a == Address(Lower(d), Lower(c))
  }

  /** `s` spells `a` in the legacy form, which stands for the shared DApp; blanks only outside. */
  ghost predicate SpellsLegacy(s: string, a: Address) {
    exists c :: Around(s, "0:" + c) && IsHex64(c) && a == Address(DEXDO_DAPP, Lower(c))
  }

  lemma PaddedHalf(w: string, d: string, z: string)
    requires Blank(w) && Blank(z) && IsHex64(d)
    ensures Trim(w + d + z) == d && NoColon(w + d + z)
  {
    HexIsPlain(d);
    TrimPadded(w, d, z);
  }

  lemma ParsesHalves(d: string, p: string, q: string, c: string)
    requires Blank(p) && Blank(q) && IsHex64(d) && IsHex64(c)
    ensures var t := d + p + "::" + (q + c);
            Trimmed(t) && ParseTrimmed(t) == Ok(Address(Lower(d), Lower(c))) && SplitOnce(t, "::").Some?
  {
    PaddedHalf([], d, p);
    assert [] + d + p == d + p;
    PaddedHalf(q, c, []);
    assert q + c + [] == q + c;
    SplitsAt(d + p, q + c);
    var t := d + p + "::" + (q + c);
    assert IsHexDigit(d[0]) && IsHexDigit(c[63]);
    assert t[0] == d[0] && t[|t| - 1] == c[63];
  }

  lemma ParsesLegacy(c: string)
    requires IsHex64(c)
    ensures var t := "0:" + c;
            Trimmed(t) && ParseTrimmed(t) == Ok(Address(DEXDO_DAPP, Lower(c))) && SplitOnce(t, "::").None?
  {
    HexIsPlain(c);
    NeverSplits("0", c);
    var t := "0:" + c;
    assert t == "0" + ":" + c;
    assert t[2..] == c && "0:" <= t;
    assert t[|t| - 1] == c[63];
  }

  lemma Reassociates(w: string, x: string, m: string, y: string, z: string)
    ensures (w + x) + m + (y + z) == w + (x + m + y) + z
  {
  }

  lemma TrimsJoined(w: string, d: string, p: string, q: string, c: string, z: string)
    requires Blank(w) && Blank(p) && Blank(q) && Blank(z) && IsHex64(d) && IsHex64(c)
    ensures Trim((w + d + p) + "::" + (q + c + z)) == d + p + "::" + (q + c)
  {
    Reassociates(w, d + p, "::", q + c, z);
    assert w + d + p == w + (d + p);
    ParsesHalves(d, p, q, c);
    TrimPadded(w, d + p + "::" + (q + c), z);
  }

  lemma CanonicalParses(s: string, a: Address)
    requires SpellsCanonical(s, a)
    ensures Parse(s) == Ok(a) && SplitOnce(Trim(s), "::").Some?
  {
    var x, d, y, c :|
      s == x + "::" + y && Around(x, d) && Around(y, c) && IsHex64(d) && IsHex64(c) && a == Address(Lower(d), Lower(c));
    var w, p :| Blank(w) && Blank(p) && x == w + d + p;
    var q, z :| Blank(q) && Blank(z) && y == q + c + z;
    TrimsJoined(w, d, p, q, c, z);
    ParsesHalves(d, p, q, c);
  }

  lemma LegacyParses(s: string, a: Address)
    requires SpellsLegacy(s, a)
    ensures Parse(s) == Ok(a) && SplitOnce(Trim(s), "::").None?
  {
    var c :| Around(s, "0:" + c) && IsHex64(c) && a == Address(DEXDO_DAPP, Lower(c));
    var w, z :| Blank(w) && Blank(z) && s == w + ("0:" + c) + z;
    ParsesLegacy(c);
    TrimPadded(w, "0:" + c, z);
  }

  lemma WiderLeft(w: string, x: string, d: string)
    requires Blank(w) && Around(x, d)
    ensures Around(w + x, d)
  {
    var v, z :| Blank(v) && Blank(z) && x == v + d + z;
    assert w + x == (w + v) + d + z;
  }

  lemma WiderRight(x: string, d: string, z: string)
    requires Blank(z) && Around(x, d)
    ensures Around(x + z, d)
  {
    var v, u :| Blank(v) && Blank(u) && x == v + d + u;
    assert Blank(u + z);
    assert x + z == v + d + (u + z);
  }

  lemma ParsedIsSpelled(s: string)
    requires Parse(s).Ok?
    ensures if SplitOnce(Trim(s), "::").Some? then SpellsCanonical(s, Parse(s).value)
            else SpellsLegacy(s, Parse(s).value)
  {
    var t := Trim(s);
    var halves := SplitOnce(t, "::");
    if halves.Some? {
      var w, z := TrimSplits(s);
      var x, y := halves.value.0, halves.value.1;
      TrimIsAround(x);
      TrimIsAround(y);
      WiderLeft(w, x, Trim(x));
      WiderRight(y, Trim(y), z);
      Reassociates(w, x, "::", y, z);
    } else {
      TrimIsAround(s);
      assert t == "0:" + t[2..];
    }
  }

  /** EXACT: a text parses to an address exactly when it spells it, one way or the other. */
  lemma ParseExactly(s: string, a: Address)
    ensures Parse(s) == Ok(a) <==> SpellsCanonical(s, a) || SpellsLegacy(s, a)
  {
    if Parse(s) == Ok(a) {
      ParsedIsSpelled(s);
    }
    if SpellsCanonical(s, a) {
      CanonicalParses(s, a);
    }
    if SpellsLegacy(s, a) {
      LegacyParses(s, a);
    }
  }

  /** ROUND TRIP: what is displayed parses back to the same address, DApp included. */
  lemma DisplayRoundTrip(a: Address)
    requires WellFormed(a)
    ensures Parse(Display(a)) == Ok(a) && Trim(Display(a)) == Display(a) && |Display(a)| == 130
    ensures SplitOnce(Display(a), "::").Some?
  {
    ParsesHalves(a.dapp, [], [], a.account);
    assert a.dapp + [] == a.dapp && [] + a.account == a.account;
    TrimOfTrimmed(Display(a));
  }

  lemma LegacyRoundTrip(a: Address)
    requires WellFormed(a)
    ensures Parse(Legacy(a)) == Ok(Address(DEXDO_DAPP, a.account)) && Trim(Legacy(a)) == Legacy(a)
    ensures |Legacy(a)| == 66
    ensures SplitOnce(Legacy(a), "::").None?
  {
    ParsesLegacy(a.account);
    TrimOfTrimmed(Legacy(a));
  }
}
