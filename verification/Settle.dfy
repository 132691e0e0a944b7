/** The settlement formulas of `settle.rs`: fee, rebate and burn in basis points, rounded down. */
module Settle {
  import opened Numerals

  /** The constants the formulas read; each is a `u32`. */
  datatype ProtocolConsts = ProtocolConsts(platformFeeBps: nat, rebateMaxBps: nat, rebateSlopeBps: nat)

  const CANONICAL := ProtocolConsts(250, 200, 4)

  /** `bps / 10000 * n * value` in whole SHELL: a `u128` product, floored, then cast to `u64`. */
  function MulBps(bps: nat, n: nat, value: nat): (r: nat)
    ensures r <= U64_MAX
  {
    (bps * n * value) % (U128_MAX + 1) / 10000 % (U64_MAX + 1)
  }

  /** Where neither the product nor the cast loses anything. */
  predicate Fits(bps: nat, n: nat, value: nat) {
    bps * n * value < 10000 * (U64_MAX + 1)
  }

  /** THE SHARE IS EXACT, floored, if and only if it fits a `u64`. */
  lemma MulBpsExact(bps: nat, n: nat, value: nat)
    ensures MulBps(bps, n, value) == bps * n * value / 10000 <==> Fits(bps, n, value)
  {
    var x := bps * n * value;
    if x < 10000 * (U64_MAX + 1) {
      assert x % (U128_MAX + 1) == x;
      assert x / 10000 < U64_MAX + 1;
    } else {
      assert x / 10000 >= U64_MAX + 1;
    }
  }

  function Fee(ticks: nat, p: nat, c: ProtocolConsts): (r: nat) {
    MulBps(c.platformFeeBps, ticks, p)
  }

  /** `min(max, slope * n)`; the saturating product never decides it. */
  function RebateRate(n: nat, c: ProtocolConsts): (r: nat)
    ensures r <= c.rebateMaxBps
  {
    var slope := if c.rebateSlopeBps * n <= U64_MAX then c.rebateSlopeBps * n else U64_MAX;
    if slope <= c.rebateMaxBps then slope else c.rebateMaxBps
  }

  function Rebate(n: nat, p: nat, c: ProtocolConsts): (r: nat) {
    MulBps(RebateRate(n, c), n, p)
  }

  /** What is left of the fee rate, never below zero. */
  function NetRate(n: nat, c: ProtocolConsts): (r: nat) {
    if RebateRate(n, c) <= c.platformFeeBps then c.platformFeeBps - RebateRate(n, c) else 0
  }

  function NetBurn(n: nat, p: nat, c: ProtocolConsts): (r: nat) {
    MulBps(NetRate(n, c), n, p)
  }

  // ------------------------------------------------------------------ the fee is what is rebated and what is burned

  lemma FloorSplits(a: nat, b: nat)
    ensures a / 10000 + b / 10000 <= (a + b) / 10000 <= a / 10000 + b / 10000 + 1
  {
  }

  lemma MulSplits(r: nat, s: nat, n: nat, p: nat)
    ensures (r + s) * n * p == r * n * p + s * n * p
  {
    calc {
      (r + s) * n * p;
      (r * n + s * n) * p;
      r * n * p + s * n * p;
    }
  }

  lemma MulMonotone(r: nat, s: nat, n: nat, m: nat, p: nat)
    requires r <= s && n <= m
    ensures r * n * p <= s * m * p
  {
    assert r * n <= s * m by {
      assert r * n <= s * n <= s * m;
    }
  }

  /** FEE = REBATE + BURN, up to the one unit that two roundings can cost; the dust is never paid out. */
  lemma FeeSplits(n: nat, p: nat, c: ProtocolConsts)
    requires c.rebateMaxBps <= c.platformFeeBps && Fits(c.platformFeeBps, n, p)
    ensures Rebate(n, p, c) + NetBurn(n, p, c) <= Fee(n, p, c) <= Rebate(n, p, c) + NetBurn(n, p, c) + 1
  {
    var rate := RebateRate(n, c);
    var rest := c.platformFeeBps - rate;
    MulSplits(rate, rest, n, p);
    MulMonotone(rate, c.platformFeeBps, n, n, p);
    MulMonotone(rest, c.platformFeeBps, n, n, p);
    MulBpsExact(c.platformFeeBps, n, p);
    MulBpsExact(rate, n, p);
    MulBpsExact(rest, n, p);
    FloorSplits(rate * n * p, rest * n * p);
  }

  /** THE RATE IS THE LESSER of the cap and slope times ticks: below both, and above whatever is. */
  lemma RateIsTheLesser(n: nat, c: ProtocolConsts, x: nat)
    requires c.rebateMaxBps <= U32_MAX
    ensures x <= RebateRate(n, c) <==> x <= c.rebateMaxBps && x <= c.rebateSlopeBps * n
  {
  }

  /** What rebate and burn take of the fee rate: all of it, unless the rebate alone exceeds it. */
  lemma RatesAddUp(n: nat, c: ProtocolConsts)
    ensures if RebateRate(n, c) <= c.platformFeeBps then RebateRate(n, c) + NetRate(n, c) == c.platformFeeBps
            else NetRate(n, c) == 0
  {
  }

  /** `r` is the share of `bps` in ten thousand of `n * p`, rounded down. */
  predicate IsShare(r: nat, bps: nat, n: nat, p: nat) {
    r * 10000 <= bps * n * p < (r + 1) * 10000
  }

  /** EACH FIGURE IS ITS SHARE, as long as it fits: the fee of the fee rate, the rebate of the rebate rate,
      the burn of what is left. */
  lemma FiguresAreShares(n: nat, p: nat, c: ProtocolConsts)
    ensures Fits(c.platformFeeBps, n, p) ==> IsShare(Fee(n, p, c), c.platformFeeBps, n, p)
    ensures Fits(RebateRate(n, c), n, p) ==> IsShare(Rebate(n, p, c), RebateRate(n, c), n, p)
    ensures Fits(NetRate(n, c), n, p) ==> IsShare(NetBurn(n, p, c), NetRate(n, c), n, p)
  {
    MulBpsExact(c.platformFeeBps, n, p);
    MulBpsExact(RebateRate(n, c), n, p);
    MulBpsExact(NetRate(n, c), n, p);
    FloorIsShare(c.platformFeeBps, n, p);
    FloorIsShare(RebateRate(n, c), n, p);
    FloorIsShare(NetRate(n, c), n, p);
  }

  lemma FloorIsShare(bps: nat, n: nat, p: nat)
    ensures IsShare(bps * n * p / 10000, bps, n, p)
  {
  }

  lemma RateMonotone(n: nat, m: nat, c: ProtocolConsts)
    requires n <= m
    ensures RebateRate(n, c) <= RebateRate(m, c)
  {
    assert c.rebateSlopeBps * n <= c.rebateSlopeBps * m;
  }

  lemma LengthSplits(rate: nat, a: nat, b: nat, p: nat)
    ensures rate * (a + b) * p == rate * a * p + rate * b * p
  {
    assert rate * (a + b) == rate * a + rate * b;
  }

  /** SPLITTING NEVER PAYS: two clean deals are rebated no more than one deal of their length. */
  lemma RebateSuperadditive(a: nat, b: nat, p: nat, c: ProtocolConsts)
    requires Fits(RebateRate(a + b, c), a + b, p)
    ensures Rebate(a, p, c) + Rebate(b, p, c) <= Rebate(a + b, p, c)
  {
    var rate := RebateRate(a + b, c);
    RateMonotone(a, a + b, c);
    RateMonotone(b, a + b, c);
    MulMonotone(RebateRate(a, c), rate, a, a, p);
    MulMonotone(RebateRate(b, c), rate, b, b, p);
    LengthSplits(rate, a, b, p);
    MulBpsExact(RebateRate(a, c), a, p);
    MulBpsExact(RebateRate(b, c), b, p);
    MulBpsExact(rate, a + b, p);
    FloorSplits(RebateRate(a, c) * a * p, RebateRate(b, c) * b * p);
  }

  // ------------------------------------------------------------------ when something is burned

  /** As long as the burn fits a `u64`, it is positive exactly when the net rate of the whole price
      reaches one unit; the claim that any clean tick burns something is not what the code does. */
  lemma NetBurnPositiveExactly(n: nat, p: nat, c: ProtocolConsts)
    requires Fits(NetRate(n, c), n, p)
    ensures NetBurn(n, p, c) > 0 <==> NetRate(n, c) * n * p >= 10000
  {
    MulBpsExact(NetRate(n, c), n, p);
  }

  /** COUNTEREXAMPLE beyond that: the burn is 2^64 units, and the cast leaves none of it. */
  lemma NetBurnCanWrap()
    ensures var n, p := 0x100_0000_0000, 200 * 0x100_0000;
            n <= U64_MAX && p <= U64_MAX && NetRate(n, CANONICAL) * n * p <= U128_MAX
            && n * p >= 200 && !Fits(NetRate(n, CANONICAL), n, p) && NetBurn(n, p, CANONICAL) == 0
  {
    var n, p := 0x100_0000_0000, 200 * 0x100_0000;
    assert RebateRate(n, CANONICAL) == 200;
    assert 50 * n * p == 10000 * (U64_MAX + 1);
  }

  lemma NetBurnCanBeZero()
    ensures NetBurn(1, 1, CANONICAL) == 0
  {
    assert RebateRate(1, CANONICAL) == 4;
    MulBpsExact(246, 1, 1);
  }

  /** On the canonical constants 200 units of delivered value burn something and keep the rebate below
      the fee. */
  lemma CanonicalBurns(n: nat, p: nat)
    requires Fits(250, n, p) && n * p >= 200
    ensures NetBurn(n, p, CANONICAL) > 0 && Rebate(n, p, CANONICAL) < Fee(n, p, CANONICAL)
  {
    var rest := NetRate(n, CANONICAL);
    MulMonotone(rest, 250, n, n, p);
    NetBurnPositiveExactly(n, p, CANONICAL);
    FeeSplits(n, p, CANONICAL);
    MulAssociates(rest, n, p);
    AtLeast(rest, n * p);
  }

  lemma AtLeast(rest: nat, v: nat)
    requires rest >= 50 && v >= 200
    ensures rest * v >= 10000
  {
    assert rest * v >= 50 * v;
  }

  /** Once the rebate is capped, nothing less than 200 units burns anything. */
  lemma CappedBurnExactly(n: nat, p: nat)
    requires Fits(50, n, p) && n >= 50
    ensures NetBurn(n, p, CANONICAL) > 0 <==> n * p >= 200
  {
    assert RebateRate(n, CANONICAL) == 200;
    NetBurnPositiveExactly(n, p, CANONICAL);
    MulAssociates(50, n, p);
  }

  lemma MulAssociates(r: nat, n: nat, p: nat)
    ensures r * n * p == r * (n * p)
  {
  }

  // ------------------------------------------------------------------ burns

  /** What each side loses and gets back when value is burned. */
  datatype ContestedBurn = ContestedBurn(buyer: nat, buyerRefund: nat, seller: nat, sellerRefund: nat)

  /** An unresolved dispute: the whole bond burns, mirrored out of the buyer's escrow. */
  function Contested(deposit: nat, sellerBond: nat): (r: ContestedBurn)
    ensures r.seller == sellerBond && r.sellerRefund == 0 && r.buyerRefund == 0
    ensures r.buyer <= deposit && r.buyer <= r.seller && (r.buyer == deposit || r.buyer == r.seller)
  {
    ContestedBurn(if sellerBond <= deposit then sellerBond else deposit, 0, sellerBond, 0)
  }

  /** Walking away from the trial tick: one tick per side, the rest of the bond back. */
  function ProbeBurn(tick: nat, sellerBond: nat): (r: ContestedBurn)
    ensures r.seller + r.sellerRefund == sellerBond && r.seller <= r.buyer == tick && r.buyerRefund == 0
    ensures r.seller == tick || r.sellerRefund == 0
  {
    var seller := if tick <= sellerBond then tick else sellerBond;
    ContestedBurn(tick, 0, seller, sellerBond - seller)
  }
}
