/** The deal gas reserve of `params.rs`: an enumeration of the calls a deal receives, priced by the
    contract's burn table. */
module DealGas {
  import opened Numerals
  import ShellAmount

  /** The entries a deal is charged for out of its reserve. */
  datatype Charge =
    | Deploy
    | PostFromNote
    | FundFromBook
    | FundDeal
    | Open
    | AcceptProbe
    | Claim
    | Settle
    | Light       // `onSellClosed` and `withdrawShell`
    | Terminal    // one wind-down and `destroy`

  function Cost(c: Charge): (n: nat) {
    match c
    case Deploy => 100_000_000
    case Terminal => 45_000_000
    case PostFromNote => 25_000_000
    case FundFromBook => 20_000_000
    case Open => 15_000_000
    case AcceptProbe => 15_000_000
    case Claim => 15_000_000
    case Settle => 15_000_000
    case FundDeal => 10_000_000
    case Light => 5_000_000
  }

  function Max(a: nat, b: nat): nat { if a >= b then a else b }

  function Saturated(n: nat): nat { if n <= U128_MAX then n else U128_MAX }

  const ONCE: nat :=
    Cost(Deploy) + Cost(PostFromNote) + Cost(FundFromBook) + Cost(FundDeal) + Cost(Open) + Cost(AcceptProbe)
    + Cost(Settle) + Cost(Light) * 2 + Cost(Terminal) * 2

  /** `deal_gas_reserve_raw`. */
  function Reserve(maxTicks: nat): (n: nat)
    ensures n <= U128_MAX
  {
    Saturated(ONCE + Saturated(Cost(Claim) * Max(maxTicks, 1)))
  }

  /** How often the reserve pays for each entry: once, twice for the two doubled rows, and one claim
      per tick. */
  function Allowed(c: Charge, maxTicks: nat): (n: nat) {
    if c == Claim then Max(maxTicks, 1) else if c == Light || c == Terminal then 2 else 1
  }

  function Times(cs: seq<Charge>, c: Charge): (n: nat) {
    if cs == [] then 0 else Times(cs[..|cs| - 1], c) + if cs[|cs| - 1] == c then 1 else 0
  }

  function Spent(cs: seq<Charge>): (n: nat) {
    if cs == [] then 0 else Spent(cs[..|cs| - 1]) + Cost(cs[|cs| - 1])
  }

  /** No entry is charged more often than the reserve counts it. */
  predicate WithinLife(cs: seq<Charge>, maxTicks: nat) {
    forall c: Charge :: Times(cs, c) <= Allowed(c, maxTicks)
  }

  /** What is spent is the price of what was called, in whatever order. */
  lemma {:induction false} SpentByEntry(cs: seq<Charge>)
    ensures Spent(cs) ==
      100_000_000 * Times(cs, Deploy) + 25_000_000 * Times(cs, PostFromNote) + 20_000_000 * Times(cs, FundFromBook)
      + 10_000_000 * Times(cs, FundDeal) + 15_000_000 * Times(cs, Open) + 15_000_000 * Times(cs, AcceptProbe)
      + 15_000_000 * Times(cs, Claim) + 15_000_000 * Times(cs, Settle) + 5_000_000 * Times(cs, Light)
      + 45_000_000 * Times(cs, Terminal)
  {
    if cs != [] {
      SpentByEntry(cs[..|cs| - 1]);
    }
  }

  lemma {:induction false} TimesOfPrefix(cs: seq<Charge>, k: nat, c: Charge)
    requires k <= |cs|
    ensures Times(cs[..k], c) <= Times(cs, c)
  {
    if k < |cs| {
      TimesOfPrefix(cs[..|cs| - 1], k, c);
      assert cs[..|cs| - 1][..k] == cs[..k];
    } else {
      assert cs[..k] == cs;
    }
  }

  lemma WithinLifeSpends(cs: seq<Charge>, maxTicks: nat)
    requires WithinLife(cs, maxTicks)
    ensures Spent(cs) <= 300_000_000 + 15_000_000 * Max(maxTicks, 1)
  {
    SpentByEntry(cs);
    assert Times(cs, Deploy) <= 1 && Times(cs, PostFromNote) <= 1 && Times(cs, FundFromBook) <= 1;
    assert Times(cs, FundDeal) <= 1 && Times(cs, Open) <= 1 && Times(cs, AcceptProbe) <= 1 && Times(cs, Settle) <= 1;
    assert Times(cs, Light) <= 2 && Times(cs, Terminal) <= 2 && Times(cs, Claim) <= Max(maxTicks, 1);
  }

  /** A whole life: every counted call, claims first. */
  function WholeLife(maxTicks: nat): (cs: seq<Charge>) {
    seq(Max(maxTicks, 1), i => Claim) + OneOffs()
  }

  function OneOffs(): (cs: seq<Charge>) {
    [Deploy, PostFromNote, FundFromBook] + [FundDeal, Open, AcceptProbe, Settle] + [Light, Light, Terminal, Terminal]
  }

  lemma {:induction false} TimesOfConcat(a: seq<Charge>, b: seq<Charge>, c: Charge)
    ensures Times(a + b, c) == Times(a, c) + Times(b, c)
  {
    if b == [] {
      assert a + b == a;
    } else {
      TimesOfConcat(a, b[..|b| - 1], c);
      assert (a + b)[..|a + b| - 1] == a + b[..|b| - 1];
    }
  }

  lemma {:induction false} TimesOfClaims(n: nat, c: Charge)
    ensures Times(seq(n, i => Claim), c) == if c == Claim then n else 0
  {
    if n > 0 {
      TimesOfClaims(n - 1, c);
      assert seq(n, i => Claim)[..n - 1] == seq(n - 1, i => Claim);
    }
  }

  lemma TimesOfOne(x: Charge, c: Charge)
    ensures Times([x], c) == if x == c then 1 else 0
  {
    assert [x][..0] == [];
  }

  lemma TimesOfOneOffs(c: Charge)
    ensures Times(OneOffs(), c) == if c == Claim then 0 else Allowed(c, 0)
  {
    var a, b := [Deploy, PostFromNote, FundFromBook], [FundDeal, Open, AcceptProbe, Settle];
    var d := [Light, Light, Terminal, Terminal];
    TimesOfConcat(a + b, d, c);
    TimesOfConcat(a, b, c);
    TimesOfThree(Deploy, PostFromNote, FundFromBook, c);
    TimesOfFour(FundDeal, Open, AcceptProbe, Settle, c);
    TimesOfFour(Light, Light, Terminal, Terminal, c);
  }

  lemma TimesOfThree(x: Charge, y: Charge, z: Charge, c: Charge)
    ensures Times([x, y, z], c) == (if x == c then 1 else 0) + (if y == c then 1 else 0) + (if z == c then 1 else 0)
  {
    assert [x, y, z] == [x] + [y] + [z];
    TimesOfConcat([x] + [y], [z], c);
    TimesOfConcat([x], [y], c);
    TimesOfOne(x, c);
    TimesOfOne(y, c);
    TimesOfOne(z, c);
  }

  lemma TimesOfFour(w: Charge, x: Charge, y: Charge, z: Charge, c: Charge)
    ensures Times([w, x, y, z], c)
         == (if w == c then 1 else 0) + (if x == c then 1 else 0)
            + (if y == c then 1 else 0) + (if z == c then 1 else 0)
  {
    assert [w, x, y, z] == [w] + [x, y, z];
    TimesOfConcat([w], [x, y, z], c);
    TimesOfOne(w, c);
    TimesOfThree(x, y, z, c);
  }

  /** A whole life is charged exactly as often as the reserve counts. */
  lemma WholeLifeTimes(maxTicks: nat, c: Charge)
    ensures Times(WholeLife(maxTicks), c) == Allowed(c, maxTicks)
  {
    TimesOfConcat(seq(Max(maxTicks, 1), i => Claim), OneOffs(), c);
    TimesOfClaims(Max(maxTicks, 1), c);
    TimesOfOneOffs(c);
  }

  lemma FullLifeSpends(cs: seq<Charge>, maxTicks: nat)
    requires forall c: Charge :: Times(cs, c) == Allowed(c, maxTicks)
    ensures WithinLife(cs, maxTicks) && Spent(cs) == 300_000_000 + 15_000_000 * Max(maxTicks, 1)
  {
    SpentByEntry(cs);
  }

  lemma WholeLifeSpends(maxTicks: nat)
    ensures WithinLife(WholeLife(maxTicks), maxTicks)
    ensures Spent(WholeLife(maxTicks)) == 300_000_000 + 15_000_000 * Max(maxTicks, 1)
  {
    forall c: Charge
      ensures Times(WholeLife(maxTicks), c) == Allowed(c, maxTicks)
    {
      WholeLifeTimes(maxTicks, c);
    }
    FullLifeSpends(WholeLife(maxTicks), maxTicks);
  }

  /** No charge of `cs`, in its order, finds the reserve short. */
  predicate NeverShort(reserve: nat, cs: seq<Charge>) {
    forall k :: 0 <= k <= |cs| ==> Spent(cs[..k]) <= reserve
  }

  /** THE RESERVE SUFFICES EXACTLY WHEN IT DOES NOT SATURATE: then, and only then, no order of the
      counted charges ever drives it below zero. */
  lemma ReserveSufficesExactly(maxTicks: nat)
    ensures (forall cs :: WithinLife(cs, maxTicks) ==> NeverShort(Reserve(maxTicks), cs))
            <==> 300_000_000 + 15_000_000 * Max(maxTicks, 1) <= U128_MAX
  {
    assert ONCE == 300_000_000;
    if 300_000_000 + 15_000_000 * Max(maxTicks, 1) <= U128_MAX {
      forall cs | WithinLife(cs, maxTicks)
        ensures NeverShort(Reserve(maxTicks), cs)
      {
        NeverShortWithin(cs, maxTicks);
      }
    } else {
      var life := WholeLife(maxTicks);
      WholeLifeSpends(maxTicks);
      assert life[..|life|] == life;
      assert Spent(life[..|life|]) > Reserve(maxTicks);
      assert !NeverShort(Reserve(maxTicks), life);
    }
  }

  /** NO SMALLER RESERVE WOULD DO: one unit less falls short of a whole life of charges. */
  lemma ReserveIsLeast(maxTicks: nat, less: nat)
    requires less < Reserve(maxTicks)
    ensures WithinLife(WholeLife(maxTicks), maxTicks) && !NeverShort(less, WholeLife(maxTicks))
  {
    var life := WholeLife(maxTicks);
    WholeLifeSpends(maxTicks);
    assert ONCE == 300_000_000;
    assert life[..|life|] == life;
    assert Spent(life[..|life|]) > less;
  }

  /** COUNTEREXAMPLE: a deal of the largest length outspends its saturated reserve. */
  lemma SaturatedReserveFallsShort()
    ensures var life := WholeLife(U128_MAX);
            WithinLife(life, U128_MAX) && Spent(life) > Reserve(U128_MAX)
  {
    WholeLifeSpends(U128_MAX);
  }

  lemma NeverShortWithin(cs: seq<Charge>, maxTicks: nat)
    requires WithinLife(cs, maxTicks) && 300_000_000 + 15_000_000 * Max(maxTicks, 1) <= U128_MAX
    ensures NeverShort(Reserve(maxTicks), cs)
  {
    forall k | 0 <= k <= |cs|
      ensures Spent(cs[..k]) <= Reserve(maxTicks)
    {
      forall c: Charge
        ensures Times(cs[..k], c) <= Allowed(c, maxTicks)
      {
        TimesOfPrefix(cs, k, c);
      }
      WithinLifeSpends(cs[..k], maxTicks);
    }
  }

  // ------------------------------------------------------------------ the deposit and the top-up

  function CeilDiv(a: nat, b: nat): (n: nat)
    requires b > 0
  {
    if a % b == 0 then a / b else a / b + 1
  }

  /** `deal_gas_requirement_raw_with_overhead`, which is also the gas-health floor. */
  function Requirement(maxTicks: nat, surplus: nat): (n: nat) {
    Saturated(Reserve(maxTicks) + surplus)
  }

  function MinDeployShells(maxTicks: nat, surplus: nat): (n: nat) {
    Max(CeilDiv(Requirement(maxTicks, surplus), ShellAmount.SHELL_UNIT), 1)
  }

  function HealthTarget(maxTicks: nat, surplus: nat): (n: nat) {
    Saturated(MinDeployShells(maxTicks, surplus) * ShellAmount.SHELL_UNIT)
  }

  /** The requirement is the reserve and the surplus together, up to the largest amount there is. */
  lemma RequirementGrows(maxTicks: nat, surplus: nat)
    ensures Requirement(maxTicks, 0) == Reserve(maxTicks)
    ensures Reserve(maxTicks) + surplus <= U128_MAX ==> Requirement(maxTicks, surplus) == Reserve(maxTicks) + surplus
    ensures Reserve(maxTicks) + surplus > U128_MAX ==> Requirement(maxTicks, surplus) == U128_MAX
  {
  }

  /** A TOP-UP NEVER STOPS SHORT: the target is at or above the floor for every deal and surplus, by less
      than a whole SHELL, and no whole SHELL less would be. */
  lemma TargetCoversFloor(maxTicks: nat, surplus: nat)
    ensures Requirement(maxTicks, surplus) <= HealthTarget(maxTicks, surplus)
    ensures HealthTarget(maxTicks, surplus) < Requirement(maxTicks, surplus) + ShellAmount.SHELL_UNIT
    ensures MinDeployShells(maxTicks, surplus) > 1 ==>
              (MinDeployShells(maxTicks, surplus) - 1) * ShellAmount.SHELL_UNIT < Requirement(maxTicks, surplus)
  {
  }

  /** CHEAP DEALS STAY POSSIBLE: for every deal that can exist, the whole-SHELL floor is below the
      deal's worth at one SHELL a tick. */
  lemma FloorBelowWorth(maxTicks: nat)
    requires maxTicks >= 2
    ensures MinDeployShells(maxTicks, 0) < maxTicks
  {
    assert ONCE == 300_000_000;
    assert Requirement(maxTicks, 0) <= 300_000_000 + 15_000_000 * maxTicks;
  }
}
