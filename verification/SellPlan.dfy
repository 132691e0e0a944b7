/** Planning a sell of SHELL to the accumulator (`accumulator.rs`): an amount in whole eccUSDC is cut
    into lots of four sizes, greedily, and the cut is exact and uses the fewest lots. */
module SellPlan {
  import opened Wrappers
  import opened Numerals
  import opened ShellAmount

  const USDC_UNIT: nat := 1_000_000
  const SHELL_PER_USDC: nat := 100 * SHELL_UNIT
  const DENOMS: seq<nat> := [1000, 100, 10, 1]

  datatype SellLot = SellLot(denom: nat, shellRaw: nat)

  datatype Plan = Plan(lots: seq<SellLot>, usdcWhole: nat, shellCommitted: nat, usdcExpected: nat)

  datatype PlanError = ZeroAmount | Overflow | InsufficientShell(required: nat, available: nat)

  /** The fold that counts lots before any is made, from the `k`-th denomination on. */
  function Count(left: nat, k: nat): (c: nat)
    requires k <= 4
    decreases 4 - k
  {
    if k == 4 then 0 else left / DENOMS[k] + Count(left % DENOMS[k], k + 1)
  }

  function LotCount(n: nat): (c: nat) {
    Count(n, 0)
  }

  // ----- cuts: any way of making an amount out of table sizes -----

  function Sum(cut: seq<nat>): (n: nat) {
    if cut == [] then 0 else cut[0] + Sum(cut[1..])
  }

  lemma {:induction false} SumSnoc(cut: seq<nat>, d: nat)
    ensures Sum(cut + [d]) == Sum(cut) + d
  {
    if cut == [] {
      assert [d][1..] == [];
    } else {
      SumSnoc(cut[1..], d);
      assert (cut + [d])[1..] == cut[1..] + [d];
    }
  }

  predicate FromTable(cut: seq<nat>) {
    forall i :: 0 <= i < |cut| ==> cut[i] in DENOMS
  }

  predicate LargestFirst(cut: seq<nat>) {
    forall i, j :: 0 <= i < j < |cut| ==> cut[i] >= cut[j]
  }

  function Sizes(lots: seq<SellLot>): (cut: seq<nat>)
    ensures |cut| == |lots| && forall i :: 0 <= i < |lots| ==> cut[i] == lots[i].denom
  {
    seq(|lots|, i requires 0 <= i < |lots| => lots[i].denom)
  }

  /** A plan for `n`: an exact cut of `n`, largest lots first, as many lots as counted, each priced at
      the fixed rate, and the totals of the whole. */
  ghost predicate PlanFor(p: Plan, n: nat) {
    && p.usdcWhole == n
    && p.shellCommitted == n * SHELL_PER_USDC
    && p.usdcExpected == n * USDC_UNIT
    && FromTable(Sizes(p.lots)) && LargestFirst(Sizes(p.lots))
    && Sum(Sizes(p.lots)) == n
    && |p.lots| == LotCount(n)
    && forall i :: 0 <= i < |p.lots| ==> p.lots[i].shellRaw == p.lots[i].denom * SHELL_PER_USDC
  }

  /** One round of the outer loop. */
  lemma Quotient(n: nat, k: nat)
    requires k < 4
    ensures var c := n / DENOMS[k];
            && c >= 0 && 0 <= n - c * DENOMS[k]
            && Count(n, k) == c + Count(n - c * DENOMS[k], k + 1)
            && (k == 3 ==> n - c * DENOMS[k] == 0)
  {
  }

  lemma QuotientAbove(n: nat, k: nat)
    requires k < 4
    ensures var d := DENOMS[k]; (n + d) / d == n / d + 1 && (n + d) % d == n % d
  {
    if k == 0 {
      assert (n + 1000) / 1000 == n / 1000 + 1;
    } else if k == 1 {
      assert (n + 100) / 100 == n / 100 + 1;
    } else if k == 2 {
      assert (n + 10) / 10 == n / 10 + 1;
    }
  }

  lemma QuotientBelow(n: nat, k: nat)
    requires k < 4 && n < DENOMS[k]
    ensures n / DENOMS[k] == 0 && n % DENOMS[k] == n
  {
    if k == 0 {
      assert n / 1000 == 0;
    } else if k == 1 {
      assert n / 100 == 0;
    } else if k == 2 {
      assert n / 10 == 0;
    }
  }

  /** The lots a greedy seller makes, one after the other: the largest size that fits, from the
      `k`-th on. */
  function Greedy(left: nat, k: nat): (c: nat)
    requires k <= 4
    decreases 4 - k, left
  {
    if k == 4 then 0
    else if left < DENOMS[k] then Greedy(left, k + 1)
    else 1 + Greedy(left - DENOMS[k], k)
  }

  /** REFINED: the four divisions count the lots of the one-by-one seller. */
  lemma {:induction false} CountIsGreedy(n: nat, k: nat)
    requires k <= 4
    ensures Count(n, k) == Greedy(n, k)
    decreases 4 - k, n
  {
    if k < 4 {
      if n < DENOMS[k] {
        QuotientBelow(n, k);
        CountIsGreedy(n, k + 1);
      } else {
        QuotientAbove(n - DENOMS[k], k);
        CountIsGreedy(n - DENOMS[k], k);
      }
    }
  }

  lemma {:induction false} GreedyZero(k: nat)
    requires k <= 4
    ensures Greedy(0, k) == 0
    decreases 4 - k
  {
    if k < 4 {
      GreedyZero(k + 1);
    }
  }

  /** One lot of the size above is ten of this one. */
  lemma GreedyTen(n: nat, k: nat)
    requires k < 3
    ensures Greedy(n + DENOMS[k], k + 1) == Greedy(n, k + 1) + 10
  {
    var d := DENOMS[k + 1];
    assert Greedy(n + 5 * d, k + 1) == Greedy(n, k + 1) + 5 by { GreedyFive(n, k + 1, d); }
    assert Greedy(n + 10 * d, k + 1) == Greedy(n + 5 * d, k + 1) + 5 by { GreedyFive(n + 5 * d, k + 1, d); }
    assert DENOMS[k] == 10 * d;
  }

  lemma GreedyOne(n: nat, k: nat)
    requires k < 4
    ensures Greedy(n + DENOMS[k], k) == Greedy(n, k) + 1
  {
  }

  lemma GreedyFive(n: nat, k: nat, d: nat)
    requires k < 4 && d == DENOMS[k]
    ensures Greedy(n + 5 * d, k) == Greedy(n, k) + 5
  {
    GreedyOne(n, k);
    GreedyOne(n + d, k);
    GreedyOne(n + 2 * d, k);
    GreedyOne(n + 3 * d, k);
    GreedyOne(n + 4 * d, k);
  }

  /** The same amount counted from one size lower, when that size goes in once. */
  lemma GreedyCarry(n: nat, k: nat)
    requires k < 3 && DENOMS[k] <= n < 2 * DENOMS[k]
    ensures Greedy(n, k) + 9 == Greedy(n, k + 1)
  {
    var rest := n - DENOMS[k];
    GreedyOne(rest, k);
    GreedyTen(rest, k);
  }

  /** Adding a smaller lot to less than one `k`-th lot. */
  lemma OneMoreBelow(n: nat, j: nat, k: nat)
    requires k < j < 4 && n < DENOMS[k]
    requires Greedy(n + DENOMS[j], k + 1) <= Greedy(n, k + 1) + 1
    ensures Greedy(n + DENOMS[j], k) <= Greedy(n, k) + 1
  {
    var d, s := DENOMS[j], DENOMS[k];
    if n + d >= s {
      GreedyCarry(n + d, k);
    }
  }

  /** One more lot of a size at or below the `k`-th raises the count by at most one. */
  lemma {:induction false} OneMoreLot(n: nat, j: nat, k: nat)
    requires k <= j < 4
    ensures Greedy(n + DENOMS[j], k) <= Greedy(n, k) + 1
    decreases j - k, n
  {
    if j == k {
      GreedyOne(n, k);
    } else if n >= DENOMS[k] {
      var less := n - DENOMS[k];
      OneMoreLot(less, j, k);
      GreedyOne(less, k);
      GreedyOne(less + DENOMS[j], k);
    } else {
      OneMoreLot(n, j, k + 1);
      OneMoreBelow(n, j, k);
    }
  }

  /** Where a size stands in the table. */
  lemma Place(d: nat, k: nat) returns (j: nat)
    requires d in DENOMS && k < 4 && d <= DENOMS[k]
    ensures k <= j < 4 && d == DENOMS[j]
  {
    j :| 0 <= j < 4 && d == DENOMS[j];
  }

  /** MINIMAL, over every lower part of the table: a cut whose lots are at most the `k`-th size
      has at least as many lots as a greedy seller makes from that size on. */
  lemma {:induction false} FewestFrom(cut: seq<nat>, k: nat)
    requires k < 4 && FromTable(cut) && forall i :: 0 <= i < |cut| ==> cut[i] <= DENOMS[k]
    ensures |cut| >= Greedy(Sum(cut), k)
  {
    if cut == [] {
      GreedyZero(k);
    } else {
      var rest := cut[1..];
      assert forall i :: 0 <= i < |rest| ==> rest[i] == cut[i + 1];
      FewestFrom(rest, k);
      var j := Place(cut[0], k);
      OneMoreLot(Sum(rest), j, k);
    }
  }

  lemma AtMostTop(cut: seq<nat>)
    requires FromTable(cut)
    ensures forall i :: 0 <= i < |cut| ==> cut[i] <= DENOMS[0]
  {
    forall i | 0 <= i < |cut|
      ensures cut[i] <= DENOMS[0]
    {
      var j := TablePlace(cut[i]);
    }
  }

  lemma TablePlace(d: nat) returns (j: nat)
    requires d in DENOMS
    ensures j < 4 && d == DENOMS[j] && d <= DENOMS[0]
  {
    j :| 0 <= j < 4 && d == DENOMS[j];
  }

  lemma Fewest(cut: seq<nat>)
    requires FromTable(cut)
    ensures |cut| >= Greedy(Sum(cut), 0)
  {
    AtMostTop(cut);
    FewestFrom(cut, 0);
  }

  /** No cut of `n` into table sizes has fewer lots than the plan. */
  lemma PlanIsMinimal(p: Plan, n: nat, cut: seq<nat>)
    requires PlanFor(p, n) && FromTable(cut) && Sum(cut) == n
    ensures |p.lots| <= |cut|
  {
    CountIsGreedy(n, 0);
    Fewest(cut);
  }

  /** Starting one size lower costs lots, if the size left out fits. */
  lemma {:induction false} OneSizeLower(n: nat, k: nat)
    requires k < 3
    ensures Greedy(n, k + 1) >= Greedy(n, k) + if n >= DENOMS[k] then 1 else 0
  {
    if n >= DENOMS[k] {
      var less := n - DENOMS[k];
      OneSizeLower(less, k);
      GreedyOne(less, k);
      GreedyTen(less, k);
    }
  }

  /** Starting below a size that still fits costs lots. */
  lemma {:induction false} SkippingCosts(n: nat, k: nat)
    requires k < 4
    ensures Greedy(n, k) >= Greedy(n, 0)
    ensures k > 0 && n >= DENOMS[k - 1] ==> Greedy(n, k) > Greedy(n, 0)
  {
    if k > 0 {
      SkippingCosts(n, k - 1);
      OneSizeLower(n, k - 1);
    }
  }

  /** A largest-first cut with the fewest lots starts with the largest size that fits. */
  lemma FirstLot(cut: seq<nat>) returns (k: nat)
    requires cut != [] && FromTable(cut) && LargestFirst(cut) && |cut| == Greedy(Sum(cut), 0)
    ensures k < 4 && cut[0] == DENOMS[k]
    ensures Sum(cut) >= DENOMS[k] && (k > 0 ==> Sum(cut) < DENOMS[k - 1])
  {
    k := TablePlace(cut[0]);
    FewestFrom(cut, k);
    if k > 0 && Sum(cut) >= DENOMS[k - 1] {
      SkippingCosts(Sum(cut), k);
    }
  }

  lemma FewestRest(cut: seq<nat>)
    requires cut != [] && FromTable(cut) && LargestFirst(cut) && |cut| == Greedy(Sum(cut), 0)
    ensures var rest := cut[1..];
            FromTable(rest) && LargestFirst(rest) && |rest| == Greedy(Sum(rest), 0)
  {
    var rest := cut[1..];
    assert forall i :: 0 <= i < |rest| ==> rest[i] == cut[i + 1];
    Fewest(rest);
    var j := TablePlace(cut[0]);
    OneMoreLot(Sum(rest), j, 0);
  }

  /** UNIQUE: a largest-first cut of `n` with the fewest lots is determined by `n`. */
  lemma {:induction false} CutIsUnique(a: seq<nat>, b: seq<nat>)
    requires FromTable(a) && LargestFirst(a) && |a| == Greedy(Sum(a), 0)
    requires FromTable(b) && LargestFirst(b) && |b| == Greedy(Sum(b), 0)
    requires Sum(a) == Sum(b)
    ensures a == b
  {
    if a != [] {
      var j := FirstLot(a);
      var k := FirstLot(b);
      assert j == k;
      FewestRest(a);
      FewestRest(b);
      CutIsUnique(a[1..], b[1..]);
      assert a == [a[0]] + a[1..] && b == [b[0]] + b[1..];
    }
  }

  /** One amount, one plan. */
  lemma PlanIsUnique(p: Plan, q: Plan, n: nat)
    requires PlanFor(p, n) && PlanFor(q, n)
    ensures p == q
  {
    CountIsGreedy(n, 0);
    CutIsUnique(Sizes(p.lots), Sizes(q.lots));
    forall i | 0 <= i < |p.lots|
      ensures p.lots[i] == q.lots[i]
    {
      assert Sizes(p.lots)[i] == Sizes(q.lots)[i];
    }
    assert p.lots == q.lots;
  }

  // ----- the planner -----

  /** The largest number of entries a vector may be reserved for: `usize`, and what the allocator
      grants. */
  function Room(granted: nat): (n: nat) {
    if granted <= U64_MAX then granted else U64_MAX
  }

  /** Priced table lots, largest first, none below `floor`. */
  ghost predicate Lots(lots: seq<SellLot>, floor: nat) {
    && FromTable(Sizes(lots)) && LargestFirst(Sizes(lots))
    && (forall i :: 0 <= i < |lots| ==> lots[i].denom >= floor)
    && (forall i :: 0 <= i < |lots| ==> lots[i].shellRaw == lots[i].denom * SHELL_PER_USDC)
  }

  function LotOf(denom: nat): (lot: SellLot) {
    SellLot(denom, denom * SHELL_PER_USDC)
  }

  lemma PushLot(lots: seq<SellLot>, denom: nat)
    requires Lots(lots, denom) && denom in DENOMS
    ensures Lots(lots + [LotOf(denom)], denom)
    ensures Sum(Sizes(lots + [LotOf(denom)])) == Sum(Sizes(lots)) + denom
  {
    assert Sizes(lots + [LotOf(denom)]) == Sizes(lots) + [denom];
    SumSnoc(Sizes(lots), denom);
  }

  /** The smallest size used before the `k`-th denomination's turn. */
  function Floor(k: nat): (d: nat)
    requires k <= 4
  {
    if k == 0 then DENOMS[0] else DENOMS[k - 1]
  }

  lemma LowerFloor(lots: seq<SellLot>, k: nat)
    requires k < 4 && Lots(lots, Floor(k))
    ensures Lots(lots, DENOMS[k])
  {
  }

  /** The inner loop: `c` lots of the `k`-th size. */
  method PushLots(lots: seq<SellLot>, k: nat, c: nat) returns (more: seq<SellLot>)
    requires k < 4 && Lots(lots, Floor(k))
    ensures Lots(more, Floor(k + 1))
    ensures |more| == |lots| + c
    ensures Sum(Sizes(more)) == Sum(Sizes(lots)) + c * DENOMS[k]
  {
    var denom := DENOMS[k];
    LowerFloor(lots, k);
    more := lots;
    for j := 0 to c
      invariant |more| == |lots| + j
      invariant Sum(Sizes(more)) == Sum(Sizes(lots)) + j * denom
      invariant Lots(more, denom)
    {
      PushLot(more, denom);
      more := more + [LotOf(denom)];
      assert (j + 1) * denom == j * denom + denom;
    }
  }

  /** `SellPlan::for_whole_usdc`. `granted` is the largest reservation the allocator accepts. */
  method ForWholeUsdc(n: nat, granted: nat) returns (r: Result<Plan, PlanError>)
    requires n <= U128_MAX
    ensures r == Err(ZeroAmount) <==> n == 0
    ensures r == Err(Overflow) <==> n > 0 && (n * SHELL_PER_USDC > U128_MAX || LotCount(n) > Room(granted))
    ensures r.Err? ==> r.error.ZeroAmount? || r.error.Overflow?
    ensures r.Ok? ==> PlanFor(r.value, n)
  {
    if n == 0 {
      return Err(ZeroAmount);
    }
    if n * SHELL_PER_USDC > U128_MAX {
      return Err(Overflow);
    }
    if n * USDC_UNIT > U128_MAX {
      return Err(Overflow);
    }
    var count := LotCount(n);
    if count > U64_MAX || count > granted {
      return Err(Overflow);
    }
    var lots: seq<SellLot>, left: nat := [], n;
    for k := 0 to 4
      invariant |lots| + Count(left, k) == LotCount(n)
      invariant Sum(Sizes(lots)) + left == n
      invariant Lots(lots, Floor(k))
      invariant k == 4 ==> left == 0
    {
      Quotient(left, k);
      var count := left / DENOMS[k];
      lots := PushLots(lots, k, count);
      left := left - count * DENOMS[k];
    }
    return Ok(Plan(lots, n, n * SHELL_PER_USDC, n * USDC_UNIT));
  }

  // ----- what a balance converts to -----

  function MaxWholeUsdc(shellRaw: nat): (n: nat) {
    shellRaw / SHELL_PER_USDC
  }

  function ShellRemainder(shellRaw: nat): (n: nat) {
    shellRaw % SHELL_PER_USDC
  }

  function RequireFunded(p: Plan, available: nat): (r: Result<(), PlanError>) {
    if p.shellCommitted > available then Err(InsufficientShell(p.shellCommitted, available)) else Ok(())
  }

  function ShellLeft(p: Plan, available: nat): (n: nat) {
    if available >= p.shellCommitted then available - p.shellCommitted else 0
  }

  /** The SHELL the lots carry, one message each. */
  function Carried(lots: seq<SellLot>): (n: nat) {
    if lots == [] then 0 else lots[0].shellRaw + Carried(lots[1..])
  }

  lemma {:induction false} CarriedIsPriced(lots: seq<SellLot>)
    requires forall i :: 0 <= i < |lots| ==> lots[i].shellRaw == lots[i].denom * SHELL_PER_USDC
    ensures Carried(lots) == Sum(Sizes(lots)) * SHELL_PER_USDC
  {
    if lots != [] {
      CarriedIsPriced(lots[1..]);
      assert Sizes(lots)[1..] == Sizes(lots[1..]);
    }
  }

  /** CONSERVED: what the single messages carry, plus what stays in a wallet that can fund the plan, is
      what the wallet held; the plan is refused exactly when the messages carry more than that. */
  lemma MessagesConserve(p: Plan, n: nat, available: nat)
    requires PlanFor(p, n)
    ensures RequireFunded(p, available).Ok? <==> Carried(p.lots) <= available
    ensures RequireFunded(p, available).Ok? ==> Carried(p.lots) + ShellLeft(p, available) == available
    ensures RequireFunded(p, available).Err? ==>
              RequireFunded(p, available).error == InsufficientShell(Carried(p.lots), available)
  {
    CarriedIsPriced(p.lots);
  }

  /** A plan is funded exactly when it converts no more than the whole eccUSDC the balance buys. */
  lemma FundedExactly(p: Plan, n: nat, available: nat)
    requires PlanFor(p, n)
    ensures RequireFunded(p, available).Ok? <==> n <= MaxWholeUsdc(available)
  {
    var most := MaxWholeUsdc(available);
    assert most * SHELL_PER_USDC <= available < (most + 1) * SHELL_PER_USDC;
  }

  /** `SellPlan::for_available_shell`: the plan it makes is funded and leaves exactly the remainder
      below one eccUSDC. */
  method ForAvailableShell(available: nat, granted: nat) returns (r: Result<Plan, PlanError>)
    requires available <= U128_MAX
    ensures r == Err(ZeroAmount) <==> available < SHELL_PER_USDC
    ensures r == Err(Overflow) <==> available >= SHELL_PER_USDC && LotCount(available / SHELL_PER_USDC) > Room(granted)
    ensures r.Err? ==> r.error.ZeroAmount? || r.error.Overflow?
    ensures r.Ok? ==>
      && PlanFor(r.value, available / SHELL_PER_USDC)
      && RequireFunded(r.value, available).Ok?
      && ShellLeft(r.value, available) == ShellRemainder(available)
      && Carried(r.value.lots) + ShellRemainder(available) == available
  {
    var n := MaxWholeUsdc(available);
    assert n * SHELL_PER_USDC <= available;
    r := ForWholeUsdc(n, granted);
    if r.Ok? {
      FundedExactly(r.value, n, available);
      MessagesConserve(r.value, n, available);
    }
  }
}
