/** Where address text enters and leaves the client (`address.rs`): what is shown, what a command-line
    argument becomes, and what files keep over any number of loads and saves. */
module AddressSeams {
  import opened Wrappers
  import opened Lists
  import opened Text
  import opened Numerals
  import opened Addresses

  /** The two ways a field is written: as an account of the shared DApp, or of its own. */
  datatype Seam = Shared | SelfDapp

  /** `display` and `display_self_dapp`. */
  function Show(seam: Seam, s: string): (r: string) {
    var t := Trim(s);
    match Parse(s)
    case Err(_) => t
    case Ok(a) =>
      if seam.SelfDapp? && !Contains(t, "::") then a.account + "::" + a.account else Display(a)
  }

  datatype Refusal =
    | Malformed(error: AddressError)
    | NotAnAccount(dapp: string, rest: string)
    | OneColon(dapp: string, account: string)

  /** `arg_to_chain_param`. */
  function ArgToChain(raw: string): (r: Result<string, Refusal>) {
    var t := Trim(raw);
    if Contains(t, "::") then
      match Parse(t)
      case Ok(a) => Ok(Legacy(a))
      case Err(e) => Err(Malformed(e))
    else
      var halves := SplitOnce(t, ":");
      if halves.Some? && IsHex64(Trim(halves.value.0)) then
        var first, rest := Trim(halves.value.0), Trim(halves.value.1);
        if IsHex64(rest) then Err(OneColon(first, rest)) else Err(NotAnAccount(first, rest))
      else Ok(t)
  }

  /** The address a one-colon refusal tells the operator to use. */
  function Advised(r: Refusal): (s: string)
    requires r.OneColon?
  {
    r.dapp + "::" + r.account
  }

  lemma ParseOfTrim(s: string)
    ensures Trim(Trim(s)) == Trim(s) && Parse(Trim(s)) == Parse(s)
  {
    var w, z := TrimSplits(s);
    TrimOfTrimmed(Trim(s));
  }

  /** READ BACK: a displayed address is accepted as an argument, as its account's chain form. */
  lemma ArgReadsDisplayed(a: Address)
    requires WellFormed(a)
    ensures ArgToChain(Display(a)) == Ok(Legacy(a))
  {
    DisplayRoundTrip(a);
  }

  /** What is shown for an address, spelled out. */
  lemma ShownIsDisplayed(seam: Seam, s: string)
    requires Parse(s).Ok?
    ensures var account := Parse(s).value.account;
            exists d :: WellFormed(Address(d, account)) && Show(seam, s) == Display(Address(d, account))
  {
    ParseIsWellFormed(s);
    var a := Parse(s).value;
    assert WellFormed(Address(a.dapp, a.account)) && WellFormed(Address(a.account, a.account));
  }

  /** READ BACK: whatever either printer makes of an address, the argument boundary reads as the same
      account. */
  lemma ArgReadsShown(seam: Seam, s: string)
    requires Parse(s).Ok?
    ensures ArgToChain(Show(seam, s)) == Ok(Legacy(Parse(s).value))
  {
    ShownIsDisplayed(seam, s);
    var account := Parse(s).value.account;
    var d :| WellFormed(Address(d, account)) && Show(seam, s) == Display(Address(d, account));
    ArgReadsDisplayed(Address(d, account));
  }

  /** ADVICE HOLDS: the address the one-colon refusal names is accepted by the boundary that refused. */
  lemma AdviceIsAccepted(s: string)
    requires ArgToChain(s).Err? && ArgToChain(s).error.OneColon?
    ensures var r := ArgToChain(s).error;
            && Parse(Advised(r)) == Ok(Address(Lower(r.dapp), Lower(r.account)))
            && ArgToChain(Advised(r)) == Ok("0:" + Lower(r.account))
  {
    var r := ArgToChain(s).error;
    ParsesHalves(r.dapp, [], [], r.account);
    assert r.dapp + [] == r.dapp && [] + r.account == r.account;
    TrimOfTrimmed(Advised(r));
  }

  /** The first colon of a legacy address stands behind the workchain. */
  lemma LegacyFirstColon(t: string)
    requires "0:" <= t
    ensures SplitOnce(t, ":") == Some(("0", t[2..]))
  {
    assert t[0] == '0' && t[1] == ':';
    assert OccursAt(t, ":", 1);
    assert !OccursAt(t, ":", 0) by {
      var p := ":";
      assert t[0 + 0] != p[0];
    }
    FindIs(t, ":", 0, 1);
    assert t[..1] == "0";
  }

  lemma WorkchainIsNoDapp()
    ensures !IsHex64(Trim("0"))
  {
    TrimOfTrimmed("0");
  }

  /** What a file field becomes when it is read: the chain form of an address, other text as it is. */
  function Load(s: string): (r: string) {
    match Parse(s)
    case Ok(a) => Legacy(a)
    case Err(_) => s
  }

  /** AGREED: an address is never refused as an argument, and file and argument name the same account. */
  lemma ArgAgreesWithLoad(s: string)
    requires Parse(s).Ok?
    ensures ArgToChain(s).Ok? && Load(ArgToChain(s).value) == Load(s) == Legacy(Parse(s).value)
  {
    var t, a := Trim(s), Parse(s).value;
    ParseOfTrim(s);
    if Contains(t, "::") {
      ParseIsWellFormed(s);
      LegacyRoundTrip(a);
    } else {
      LegacyFirstColon(t);
      WorkchainIsNoDapp();
    }
  }

  /** STABLE: what the argument boundary lets through it lets through again, unchanged. */
  lemma ArgIsStable(s: string)
    requires ArgToChain(s).Ok?
    ensures ArgToChain(ArgToChain(s).value) == ArgToChain(s)
  {
    var t := Trim(s);
    ParseOfTrim(s);
    if Contains(t, "::") {
      var a := Parse(t).value;
      ParseIsWellFormed(t);
      LegacyRoundTrip(a);
      assert "0:" <= Legacy(a);
      LegacyFirstColon(Legacy(a));
      WorkchainIsNoDapp();
    }
  }

  // ----- what is refused -----

  /** Two colons stand side by side. */
  ghost predicate HoldsPair(s: string) {
    exists i :: 0 <= i < |s| - 1 && s[i] == ':' && s[i + 1] == ':'
  }

  lemma PairExactly(t: string)
    ensures Contains(t, "::") <==> HoldsPair(t)
  {
    if Contains(t, "::") {
      var i := Find(t, "::").value;
      assert t[i + 0] == "::"[0] && t[i + 1] == "::"[1];
    }
    if i :| 0 <= i < |t| - 1 && t[i] == ':' && t[i + 1] == ':' {
      assert OccursAt(t, "::", i);
    }
  }

  lemma PairOfTrim(s: string)
    ensures HoldsPair(Trim(s)) <==> HoldsPair(s)
  {
    var a, b := TrimSplits(s);
    var t := Trim(s);
    if i :| 0 <= i < |t| - 1 && t[i] == ':' && t[i + 1] == ':' {
      assert s[|a| + i] == ':' && s[|a| + i + 1] == ':';
    }
    if i :| 0 <= i < |s| - 1 && s[i] == ':' && s[i + 1] == ':' {
      ColonInside(s, a, t, b, i);
      ColonInside(s, a, t, b, i + 1);
      assert t[i - |a|] == ':' && t[i - |a| + 1] == ':';
    }
  }

  /** A colon is no blank, so trimming keeps it. */
  lemma ColonInside(s: string, a: string, t: string, b: string, i: nat)
    requires Blank(a) && Blank(b) && s == a + t + b && i < |s| && s[i] == ':'
    ensures |a| <= i < |a| + |t| && t[i - |a|] == ':'
  {
    BlankHasNoColon(a);
    BlankHasNoColon(b);
  }

  lemma BlankHasNoColon(a: string)
    requires Blank(a)
    ensures NoColon(a)
  {
  }

  lemma TrimDropsFront(a: string, p: string)
    requires Blank(a)
    ensures Trim(a + p) == Trim(p)
  {
    var c, d := TrimSplits(p);
    assert Blank(a + c);
    TrimPadded(a + c, Trim(p), d);
    assert a + p == (a + c) + Trim(p) + d;
  }

  lemma TrimDropsBack(p: string, b: string)
    requires Blank(b)
    ensures Trim(p + b) == Trim(p)
  {
    var c, d := TrimSplits(p);
    assert Blank(d + b);
    TrimPadded(c, Trim(p), d + b);
    assert p + b == c + Trim(p) + (d + b);
  }

  /** The first colon splits what was trimmed as it splits the text. */
  lemma FirstColonOfTrim(s: string, x: string, y: string)
    requires s == x + ":" + y && NoColon(x)
    ensures var halves := SplitOnce(Trim(s), ":");
            halves.Some? && Trim(halves.value.0) == Trim(x) && Trim(halves.value.1) == Trim(y)
  {
    var a, b := TrimSplits(s);
    var t := Trim(s);
    ColonInside(s, a, t, b, |x|);
    var k := |x| - |a|;
    var p, q := t[..k], t[k + 1..];
    assert t == p + ":" + q;
    assert x == a + p && y == q + b by {
      assert s == (a + p) + ":" + (q + b);
      assert |a + p| == |x|;
      assert s[..|x|] == x && s[..|x|] == a + p;
      assert s[|x| + 1..] == y && s[|x| + 1..] == q + b;
    }
    assert NoColon(p) by {
      assert forall i :: 0 <= i < |p| ==> p[i] == x[|a| + i];
    }
    SplitsAtColon(p, q);
    TrimDropsFront(a, p);
    TrimDropsBack(q, b);
  }

  lemma SplitsAtColon(p: string, q: string)
    requires NoColon(p)
    ensures SplitOnce(p + ":" + q, ":") == Some((p, q))
  {
    var t := p + ":" + q;
    assert OccursAt(t, ":", |p|);
    forall j: nat | j < |p|
      ensures !OccursAt(t, ":", j)
    {
      assert t[j] == p[j];
      NotAt(t, ":", j);
    }
    FindIs(t, ":", 0, |p|);
    assert t[..|p|] == p && t[|p| + 1..] == q;
  }

  lemma NoColonOfTrim(s: string)
    requires NoColon(s)
    ensures SplitOnce(Trim(s), ":").None?
  {
    var a, b := TrimSplits(s);
    var t := Trim(s);
    assert forall i :: 0 <= i < |t| ==> t[i] == s[|a| + i];
    forall j: nat
      ensures !OccursAt(t, ":", j)
    {
      if j < |t| {
        NotAt(t, ":", j);
      }
    }
  }

  /** `d`, a DApp id with blanks around it, before a colon and `y`. */
  ghost predicate DappBefore(s: string, d: string, y: string) {
    IsHex64(d) && exists x :: s == x + ":" + y && Around(x, d)
  }

  lemma DappHasNoColon(x: string, d: string)
    requires Around(x, d) && IsHex64(d)
    ensures NoColon(x) && Trim(x) == d
  {
    HexIsPlain(d);
    AroundExactly(x, d);
    var a, b :| Blank(a) && Blank(b) && x == a + d + b;
    PaddedHalf(a, d, b);
  }

  lemma RefusedBefore(s: string, d: string, y: string)
    requires !HoldsPair(s) && DappBefore(s, d, y)
    ensures var rest := Trim(y);
            ArgToChain(s) == Err(if IsHex64(rest) then OneColon(d, rest) else NotAnAccount(d, rest))
  {
    PairOfTrim(s);
    PairExactly(Trim(s));
    var x :| s == x + ":" + y && Around(x, d);
    DappHasNoColon(x, d);
    FirstColonOfTrim(s, x, y);
  }

  lemma FirstColon(s: string) returns (x: string, y: string)
    requires !NoColon(s)
    ensures s == x + ":" + y && NoColon(x)
  {
    var at := FindChar(s, ':', 0).value;
    x, y := s[..at], s[at + 1..];
  }

  lemma LetThroughOtherwise(s: string)
    requires !HoldsPair(s) && ArgToChain(s).Err?
    ensures exists d, y :: DappBefore(s, d, y)
  {
    PairOfTrim(s);
    PairExactly(Trim(s));
    if NoColon(s) {
      NoColonOfTrim(s);
    } else {
      var x, y := FirstColon(s);
      FirstColonOfTrim(s, x, y);
      TrimIsAround(x);
      assert DappBefore(s, Trim(x), y);
    }
  }

  /** REFUSED, EXACTLY: an argument is refused if and only if it holds a `::` and is no address, or it holds
      none and a DApp id stands before a colon. Everything else is handed on as it is, trimmed. */
  lemma RefusedExactly(s: string)
    ensures ArgToChain(s).Err? <==>
            if HoldsPair(s) then Parse(s).Err? else exists d, y :: DappBefore(s, d, y)
    ensures ArgToChain(s).Ok? ==> ArgToChain(s).value == if HoldsPair(s) then Legacy(Parse(s).value) else Trim(s)
  {
    PairOfTrim(s);
    PairExactly(Trim(s));
    ParseOfTrim(s);
    if !HoldsPair(s) {
      if d, y :| DappBefore(s, d, y) {
        RefusedBefore(s, d, y);
      }
      if ArgToChain(s).Err? {
        LetThroughOtherwise(s);
      }
    }
  }

  // ----- files -----

  datatype Op = Read | Write(seam: Seam)

  function Apply(op: Op, s: string): (r: string) {
    match op
    case Read => Load(s)
    case Write(seam) => Show(seam, s)
  }

  /** A field's text after any sequence of reads and writes, through either seam. */
  function Run(ops: List<Op>, s: string): (r: string) {
    match ops
    case Nil => s
    case Cons(op, rest) => Run(rest, Apply(op, s))
  }

  /** What a text says of an account: its id, and the DApp if it names one. */
  datatype Held = Held(dapp: Option<string>, account: string)

  function Says(s: string): (r: Option<Held>) {
    match Parse(s)
    case Err(_) => None
    case Ok(a) => Some(Held(if Contains(Trim(s), "::") then Some(a.dapp) else None, a.account))
  }

  function SeamDapp(seam: Seam, account: string): (d: string) {
    match seam
    case Shared => DEXDO_DAPP
    case SelfDapp => account
  }

  /** A read forgets the DApp; a write keeps a named one and otherwise names the seam's own. */
  function Step(op: Op, h: Held): (r: Held) {
    match op
    case Read => Held(None, h.account)
    case Write(seam) => if h.dapp.Some? then h else Held(Some(SeamDapp(seam, h.account)), h.account)
  }

  function Steps(ops: List<Op>, h: Held): (r: Held) {
    match ops
    case Nil => h
    case Cons(op, rest) => Steps(rest, Step(op, h))
  }

  lemma SaysLegacy(a: Address)
    requires WellFormed(a)
    ensures Says(Legacy(a)) == Some(Held(None, a.account))
  {
    LegacyRoundTrip(a);
  }

  lemma SaysDisplayed(a: Address)
    requires WellFormed(a)
    ensures Says(Display(a)) == Some(Held(Some(a.dapp), a.account))
  {
    DisplayRoundTrip(a);
  }

  /** The dapp a legacy text stands for. */
  lemma UnnamedIsShared(s: string)
    requires Parse(s).Ok? && !Contains(Trim(s), "::")
    ensures Parse(s).value.dapp == DEXDO_DAPP
  {
  }

  lemma ApplyRefines(op: Op, s: string)
    requires Says(s).Some?
    ensures Says(Apply(op, s)) == Some(Step(op, Says(s).value))
  {
    ParseIsWellFormed(s);
    var a := Parse(s).value;
    match op
    case Read => SaysLegacy(a);
    case Write(seam) =>
      if Contains(Trim(s), "::") {
        SaysDisplayed(a);
      } else {
        UnnamedIsShared(s);
        DexdoIsHex();
        SaysDisplayed(Address(SeamDapp(seam, a.account), a.account));
      }
  }

  /** REFINED: over every sequence of reads and writes the text says what the two-line model says. */
  lemma {:induction false} RunRefines(ops: List<Op>, s: string)
    requires Says(s).Some?
    ensures Says(Run(ops, s)) == Some(Steps(ops, Says(s).value))
  {
    if ops.Cons? {
      ApplyRefines(ops.head, s);
      RunRefines(ops.tail, Apply(ops.head, s));
    }
  }

  lemma {:induction false} StepsKeepAccount(ops: List<Op>, h: Held)
    ensures Steps(ops, h).account == h.account
  {
    if ops.Cons? {
      StepsKeepAccount(ops.tail, Step(ops.head, h));
    }
  }

  /** KEPT: no sequence of reads and writes, through either seam, loses or changes the account. */
  lemma AccountIsKept(ops: List<Op>, s: string)
    requires Parse(s).Ok?
    ensures Parse(Run(ops, s)).Ok? && Parse(Run(ops, s)).value.account == Parse(s).value.account
  {
    RunRefines(ops, s);
    StepsKeepAccount(ops, Says(s).value);
  }

  // ----- the DApp id -----

  predicate NoRead(ops: List<Op>) {
    ops.Nil? || (ops.head.Write? && NoRead(ops.tail))
  }

  function AfterLastRead(ops: List<Op>): (r: List<Op>)
    ensures NoRead(r)
  {
    if NoRead(ops) then ops else AfterLastRead(ops.tail)
  }

  /** The DApp a reader ends up with: the one named at first if nothing was read since, otherwise that
      of the first seam written through after the last read, and the shared one if there is none. */
  function EndingDapp(ops: List<Op>, named: Option<string>, account: string): (d: string) {
    if NoRead(ops) && named.Some? then named.value
    else
      var since := AfterLastRead(ops);
      if since.Nil? then DEXDO_DAPP else SeamDapp(since.head.seam, account)
  }

  function Understood(h: Held): (d: string) {
    if h.dapp.Some? then h.dapp.value else DEXDO_DAPP
  }

  lemma {:induction false} WritesKeepNamed(ops: List<Op>, h: Held)
    requires NoRead(ops) && h.dapp.Some?
    ensures Steps(ops, h) == h
  {
    if ops.Cons? {
      WritesKeepNamed(ops.tail, h);
    }
  }

  lemma {:induction false} StepsEndWith(ops: List<Op>, h: Held)
    ensures Understood(Steps(ops, h)) == EndingDapp(ops, h.dapp, h.account)
  {
    if NoRead(ops) {
      if h.dapp.Some? {
        WritesKeepNamed(ops, h);
      } else if ops.Cons? {
        WritesKeepNamed(ops.tail, Step(ops.head, h));
      }
    } else {
      StepsEndWith(ops.tail, Step(ops.head, h));
    }
  }

  lemma SaysUnderstood(s: string)
    requires Parse(s).Ok?
    ensures Understood(Says(s).value) == Parse(s).value.dapp
  {
    if !Contains(Trim(s), "::") {
      UnnamedIsShared(s);
    }
  }

  /** EXACT: an address survives a sequence of reads and writes whole exactly when its DApp is the one
      that sequence ends with. */
  lemma AddressKeptExactly(ops: List<Op>, s: string)
    requires Parse(s).Ok?
    ensures var a := Parse(s).value;
            Parse(Run(ops, s)) == Ok(a) <==> a.dapp == EndingDapp(ops, Says(s).value.dapp, a.account)
  {
    RunRefines(ops, s);
    AccountIsKept(ops, s);
    StepsEndWith(ops, Says(s).value);
    SaysUnderstood(Run(ops, s));
  }

  /** Reading a file and writing it again keeps an address exactly when it belongs to the seam's DApp. */
  lemma ReloadKeepsExactly(seam: Seam, s: string)
    requires Parse(s).Ok?
    ensures var a := Parse(s).value;
            Parse(Show(seam, Load(s))) == Ok(a) <==> a.dapp == SeamDapp(seam, a.account)
  {
    var ops := Cons(Read, Cons(Write(seam), Nil));
    AddressKeptExactly(ops, s);
    assert AfterLastRead(ops) == Cons(Write(seam), Nil);
    assert Run(ops, s) == Show(seam, Load(s)) by {
      assert Run(Cons(Write(seam), Nil), Load(s)) == Run(Nil, Show(seam, Load(s)));
    }
  }

  function Repeated(c: char): (s: string)
    ensures |s| == 64
  {
    seq(64, i => c)
  }

  lemma ReloadRewrites(a: Address)
    requires WellFormed(a)
    ensures Show(Shared, Load(Display(a))) == Display(Address(DEXDO_DAPP, a.account))
  {
    DisplayRoundTrip(a);
    LegacyRoundTrip(a);
  }

  lemma ReloadLoses(a: Address)
    requires WellFormed(a) && a.dapp[0] != '0'
    ensures Show(Shared, Load(Display(a))) != Display(a)
  {
    ReloadRewrites(a);
    assert Display(a)[0] == a.dapp[0];
    assert Display(Address(DEXDO_DAPP, a.account))[0] == DEXDO_DAPP[0] == '0';
  }

  function Foreign(): (a: Address) {
    Address(Repeated('3'), Repeated('9'))
  }

  /** COUNTEREXAMPLE: an address of another DApp is rewritten by being read and written. */
  lemma ForeignDappIsLost()
    ensures WellFormed(Foreign()) && Show(Shared, Load(Display(Foreign()))) != Display(Foreign())
  {
    DigitsAreLower(Foreign().dapp);
    DigitsAreLower(Foreign().account);
    ReloadLoses(Foreign());
  }

  lemma DigitsAreLower(s: string)
    requires |s| == 64 && AllDigits(s, 10)
    ensures IsLowerHex64(s)
  {
    forall i | 0 <= i < |s|
      ensures Lower(s)[i] == s[i] && IsHexDigit(s[i])
    {
      LowerAt(s, i);
      assert IsDigitIn(s[i], 10);
    }
    assert Lower(s) == s;
  }

  // ----- text that is no address -----

  predicate NoWrite(ops: List<Op>) {
    ops.Nil? || (ops.head.Read? && NoWrite(ops.tail))
  }

  /** UNTOUCHED: text that is no address never becomes one; writing trims it, and nothing else does
      anything to it. */
  lemma {:induction false} OtherTextPasses(ops: List<Op>, s: string)
    requires Parse(s).Err?
    ensures Run(ops, s) == if NoWrite(ops) then s else Trim(s)
    ensures Parse(Run(ops, s)).Err?
  {
    if ops.Cons? {
      ParseOfTrim(s);
      OtherTextPasses(ops.tail, Apply(ops.head, s));
    }
  }

  /** UNTOUCHED, EXACTLY: such a text comes through unchanged if and only if it is never written, or
      there is nothing around it to trim. */
  lemma OtherTextKeptExactly(ops: List<Op>, s: string)
    requires Parse(s).Err?
    ensures Run(ops, s) == s <==> NoWrite(ops) || Trimmed(s)
  {
    OtherTextPasses(ops, s);
    TrimIsAround(s);
    if Trimmed(s) {
      TrimOfTrimmed(s);
    }
  }

  /** COUNTEREXAMPLE: a padded placeholder is rewritten by being saved. */
  lemma PaddedTextIsTrimmed()
    ensures Parse(" -").Err? && Show(Shared, " -") == "-"
  {
    TrimPadded(" ", "-", []);
    assert " " + "-" + [] == " -";
    assert Find("-", "::").None?;
  }
}
