/** The client-side claim limit of `params.rs`, over whole sequences of claims. Durations are counted
    in nanoseconds and read, as the code reads them, in whole seconds. */
module ClaimLimit {
  import opened Lists

  const TICK_SIZE: nat := 1_000_000
  const MAX_CLAIM_DELTA: nat := TICK_SIZE
  const NANOS: nat := 1_000_000_000

  function Secs(nanos: nat): (s: nat) {
    nanos / NANOS
  }

  /** What the physical rate alone allows in that time; without a floor there is no rate. */
  function RateAllowance(elapsed: nat, floorSecs: nat): (n: nat)
    requires floorSecs > 0
  {
    Secs(elapsed) * TICK_SIZE / floorSecs
  }

  /** `claim_delta_limit`. */
  function DeltaLimit(elapsed: nat, perTick: nat): (n: nat)
    ensures n <= MAX_CLAIM_DELTA
  {
    var floorSecs := Secs(perTick);
    var rate := if floorSecs == 0 then MAX_CLAIM_DELTA else RateAllowance(elapsed, floorSecs);
    if rate < MAX_CLAIM_DELTA then rate else MAX_CLAIM_DELTA
  }

  /** What a list of claims, each after its own gap, may assert together. */
  function TotalLimit(gaps: List<nat>, perTick: nat): (n: nat) {
    if gaps.Nil? then 0 else DeltaLimit(gaps.head, perTick) + TotalLimit(gaps.tail, perTick)
  }

  function TotalTime(gaps: List<nat>): (n: nat) {
    if gaps.Nil? then 0 else gaps.head + TotalTime(gaps.tail)
  }

  lemma SecsSuperadditive(a: nat, b: nat)
    ensures Secs(a) + Secs(b) <= Secs(a + b)
  {
  }

  lemma QuotientFits(x: nat, d: nat)
    requires d > 0
    ensures (x / d) * d <= x
  {
    assert x == (x / d) * d + x % d;
  }

  lemma TimesMonotone(a: nat, b: nat, d: nat)
    requires a <= b
    ensures a * d <= b * d
  {
    assert b * d == a * d + (b - a) * d;
  }

  lemma LessFromProducts(a: nat, b: nat, d: nat)
    requires a * d < b * d
    ensures a < b
  {
    if b <= a {
      TimesMonotone(b, a, d);
    }
  }

  lemma QuotientAtLeast(q: nat, x: nat, d: nat)
    requires d > 0 && q * d <= x
    ensures q <= x / d
  {
    var p := x / d;
    assert x == p * d + x % d;
    assert (p + 1) * d == p * d + d;
    LessFromProducts(q, p + 1, d);
  }

  lemma FloorSuperadditive(a: nat, b: nat, d: nat)
    requires d > 0
    ensures a / d + b / d <= (a + b) / d
  {
    QuotientFits(a, d);
    QuotientFits(b, d);
    assert (a / d + b / d) * d == (a / d) * d + (b / d) * d;
    QuotientAtLeast(a / d + b / d, a + b, d);
  }

  lemma QuotientMonotone(a: nat, b: nat, d: nat)
    requires d > 0 && a <= b
    ensures a / d <= b / d
  {
    QuotientFits(a, d);
    QuotientAtLeast(a / d, b, d);
  }

  lemma AllowanceSuperadditive(a: nat, b: nat, floorSecs: nat)
    requires floorSecs > 0
    ensures RateAllowance(a, floorSecs) + RateAllowance(b, floorSecs) <= RateAllowance(a + b, floorSecs)
  {
    SecsSuperadditive(a, b);
    FloorSuperadditive(Secs(a) * TICK_SIZE, Secs(b) * TICK_SIZE, floorSecs);
    QuotientMonotone(Secs(a) * TICK_SIZE + Secs(b) * TICK_SIZE, Secs(a + b) * TICK_SIZE, floorSecs);
  }

  /** SPLITTING TIME GAINS NOTHING: however a period is cut into claims, together they may assert no
      more than the rate allows for the whole of it. */
  lemma {:induction false} TimeBoundsClaims(gaps: List<nat>, perTick: nat)
    requires Secs(perTick) > 0
    ensures TotalLimit(gaps, perTick) <= RateAllowance(TotalTime(gaps), Secs(perTick))
  {
    if gaps.Cons? {
      TimeBoundsClaims(gaps.tail, perTick);
      AllowanceSuperadditive(gaps.head, TotalTime(gaps.tail), Secs(perTick));
    }
  }

  /** ONE CALL, ONE TICK: with or without a rate floor, `k` ticks take at least `k` calls. */
  lemma {:induction false} CallsBoundClaims(gaps: List<nat>, perTick: nat)
    ensures TotalLimit(gaps, perTick) <= Length(gaps) * TICK_SIZE
  {
    if gaps.Cons? {
      CallsBoundClaims(gaps.tail, perTick);
    }
  }

  lemma TicksNeedCalls(gaps: List<nat>, perTick: nat, k: nat)
    requires TotalLimit(gaps, perTick) >= k * TICK_SIZE
    ensures Length(gaps) >= k
    ensures Secs(perTick) > 0 ==> Secs(TotalTime(gaps)) >= k * Secs(perTick)
  {
    CallsBoundClaims(gaps, perTick);
    var f := Secs(perTick);
    if f > 0 {
      TimeBoundsClaims(gaps, perTick);
      TimePerTick(k, Secs(TotalTime(gaps)), f);
    }
  }

  lemma TimePerTick(k: nat, t: nat, f: nat)
    requires f > 0 && k * TICK_SIZE <= t * TICK_SIZE / f
    ensures k * f <= t
  {
    QuotientFits(t * TICK_SIZE, f);
    var q := t * TICK_SIZE / f;
    assert (k * TICK_SIZE) * f <= q * f;
    assert (k * TICK_SIZE) * f == (k * f) * TICK_SIZE;
  }

  /** A claim made after one full tick time asserts the whole tick: the two bounds meet. */
  lemma FullTickAfterTickTime(elapsed: nat, perTick: nat)
    ensures DeltaLimit(elapsed, perTick) == TICK_SIZE <==> Secs(elapsed) >= Secs(perTick) || Secs(perTick) == 0
  {
    var e, f := Secs(elapsed), Secs(perTick);
    if f > 0 {
      if e >= f {
        QuotientAtLeast(TICK_SIZE, e * TICK_SIZE, f);
      } else {
        QuotientFits(e * TICK_SIZE, f);
        assert e * TICK_SIZE < f * TICK_SIZE;
      }
    }
  }

  /** Whole seconds, rounded down. */
  lemma SecsExactly(nanos: nat, s: nat)
    ensures s <= Secs(nanos) <==> s * NANOS <= nanos
  {
  }

  /** THE LIMIT IS THE LARGEST CLAIM the contract's two inequalities allow: a total may be asserted if and
      only if it is at most one tick, and the rate covers it where there is a floor. */
  lemma LimitIsTheLargest(elapsed: nat, perTick: nat, n: nat)
    ensures n <= DeltaLimit(elapsed, perTick) <==>
            n <= TICK_SIZE && (Secs(perTick) > 0 ==> n * Secs(perTick) <= Secs(elapsed) * TICK_SIZE)
  {
    var f, x := Secs(perTick), Secs(elapsed) * TICK_SIZE;
    if f > 0 {
      if n * f <= x {
        QuotientAtLeast(n, x, f);
      }
      if n <= x / f {
        QuotientFits(x, f);
        TimesMonotone(n, x / f, f);
      }
    }
  }
}
