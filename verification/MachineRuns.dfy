/** What holds over every run of a deal: any sequence of events at all, from the moment the probe is
    frozen. */
module MachineRuns {
  import opened Wrappers
  import opened Numerals
  import opened Lists
  import opened Settle
  import opened Machine

  /** A deal with its history: every settlement it has produced, every total ever claimed, and the
      totals that a later claim or promotion confirmed. */
  datatype Deal = Deal(price: nat, state: State, settlements: List<Settlement>, claimed: set<nat>, confirmed: set<nat>)

  function Opened(price: nat): (d: Deal) {
    Deal(price, Probe(Tick(0, price)), Nil, {}, {})
  }

  function Next(d: Deal, e: Event): (r: Deal) {
    var step := Step(d.price, d.state, e);
    if step.answer == Refused then d
    else
      Deal(d.price, step.state,
           if step.answer.Settled? then Cons(step.answer.settlement, d.settlements) else d.settlements,
           if e.Claim? then d.claimed + {e.cumulative} else d.claimed,
           if e.Claim? || e.Promote? then d.confirmed + {d.state.pending} else d.confirmed)
  }

  function Run(d: Deal, es: List<Event>): (r: Deal)
    decreases es
  {
    if es.Nil? then d else Run(Next(d, es.head), es.tail)
  }

  /** Claimed totals are `u64`. */
  predicate Sent(es: List<Event>) {
    es.Nil? || ((es.head.Claim? ==> es.head.cumulative <= U64_MAX) && Sent(es.tail))
  }

  // ------------------------------------------------------------------ the claim pipeline

  /** `n` is the greatest of the totals, or the probe tick if there is none. */
  predicate Greatest(n: nat, totals: set<nat>) {
    (n == 1 || n in totals) && n >= 1 && forall x :: x in totals ==> x <= n
  }

  /** The claim pipeline. Past its probe, a live deal trusts the greatest total that a later claim or
      promotion confirmed, and at least the probe tick; and what is pending is the greatest total claimed.
      On the probe nothing is claimed, and before a deal ends nothing is settled. */
  predicate Pipeline(d: Deal) {
    && d.confirmed <= d.claimed + {1}
    && (d.state.Probe? || d.state.Streaming? ==> d.settlements.Nil?)
    && match d.state
       case Probe(tick) => tick.price == d.price && d.claimed == {} && d.confirmed == {}
       case Streaming(trusted, pending) =>
         trusted <= pending <= U64_MAX && Greatest(trusted, d.confirmed) && Greatest(pending, d.claimed)
       case Disputed(trusted, contested) =>
         && trusted + contested <= U64_MAX
         && (trusted == 0 ==> contested == 0)
         && (trusted > 0 ==> Greatest(trusted, d.confirmed) && Greatest(trusted + contested, d.claimed))
       case _ => true
  }

  lemma PipelineKept(d: Deal, e: Event)
    requires Pipeline(d) && (e.Claim? ==> e.cumulative <= U64_MAX)
    ensures Pipeline(Next(d, e))
  {
  }

  /** OVER EVERY RUN the pipeline holds. */
  lemma {:induction false} PipelineAlways(d: Deal, es: List<Event>)
    requires Pipeline(d) && Sent(es)
    ensures Pipeline(Run(d, es))
    decreases es
  {
    if es.Cons? {
      PipelineKept(d, es.head);
      PipelineAlways(Next(d, es.head), es.tail);
    }
  }

  lemma PipelineOfEveryDeal(price: nat, es: List<Event>)
    requires Sent(es)
    ensures Pipeline(Run(Opened(price), es))
  {
    PipelineAlways(Opened(price), es);
  }

  /** The newest claimed total a live deal stands at. */
  function Claimed(s: State): (n: nat) {
    match s
    case Streaming(_, pending) => pending
    case Disputed(trusted, contested) => trusted + contested
    case _ => 0
  }

  /** TRUST NEVER FALLS while the deal stays live, and neither does what is claimed. */
  lemma TrustNeverFalls(d: Deal, e: Event)
    requires Pipeline(d) && Live(d.state) && Live(Next(d, e).state)
    ensures Trusted(Next(d, e).state) >= Trusted(d.state)
    ensures Claimed(Next(d, e).state) >= Claimed(d.state)
  {
  }

  /** A run whose states are all live. */
  predicate StaysLive(d: Deal, es: List<Event>)
    decreases es
  {
    Live(d.state) && (es.Cons? ==> StaysLive(Next(d, es.head), es.tail))
  }

  lemma {:induction false} TrustNeverFallsOverRuns(d: Deal, es: List<Event>)
    requires Pipeline(d) && Sent(es) && StaysLive(d, es)
    ensures Trusted(Run(d, es).state) >= Trusted(d.state) && Claimed(Run(d, es).state) >= Claimed(d.state)
    decreases es
  {
    if es.Cons? {
      PipelineKept(d, es.head);
      TrustNeverFalls(d, es.head);
      TrustNeverFallsOverRuns(Next(d, es.head), es.tail);
    }
  }

  /** A DISPUTE MOVES NOTHING: trusted plus tail is still the newest claim, and disputing again changes
      nothing. The buyer's risk is the same, except that a dispute on the probe forgets the trial tick. */
  lemma DisputeMovesNothing(d: Deal)
    requires Pipeline(d) && Live(d.state)
    ensures var after := Next(d, Dispute);
            && after.state.Disputed?
            && Trusted(after.state) == Trusted(d.state) && Claimed(after.state) == Claimed(d.state)
            && (MaxBuyerLoss(d.price, after.state) == MaxBuyerLoss(d.price, d.state)
                <==> !d.state.Probe? || d.price == 0)
            && after.settlements == d.settlements && Next(after, Dispute) == after
  {
    DisputedRisk(d.price, d.state);
  }

  lemma DisputedRisk(price: nat, s: State)
    requires Live(s) && (s.Streaming? ==> s.trusted <= s.pending)
    ensures MaxBuyerLoss(price, Step(price, s, Dispute).state) == MaxBuyerLoss(price, s) <==> !s.Probe? || price == 0
  {
    if s.Probe? {
      assert MaxBuyerLoss(price, s) == if price <= U128_MAX then price else U128_MAX;
      assert MaxBuyerLoss(price, Disputed(0, 0)) == 0;
    }
  }

  /** COUNTEREXAMPLE: on the probe the trial tick is at risk, and after a dispute nothing is. */
  lemma ProbeDisputeDropsTheRisk()
    ensures MaxBuyerLoss(5, Opened(5).state) == 5 && MaxBuyerLoss(5, Next(Opened(5), Dispute).state) == 0
  {
  }

  /** AT RISK PLUS EARNED IS CLAIMED, at the tick price, and nothing saturates; except on the probe, where
      the trial tick is at risk and nothing is claimed yet. */
  lemma RiskIsTheTail(d: Deal)
    requires Pipeline(d) && d.price <= U64_MAX && Live(d.state)
    ensures MaxBuyerLoss(d.price, d.state) + Trusted(d.state) * d.price == Claimed(d.state) * d.price
            <==> !d.state.Probe? || d.price == 0
    ensures d.state.Probe? ==> MaxBuyerLoss(d.price, d.state) == d.price
  {
    if !d.state.Probe? {
      var tail := Claimed(d.state) - Trusted(d.state);
      assert tail * d.price <= U64_MAX * U64_MAX by { ProductBound(tail, d.price); }
      assert tail * d.price + Trusted(d.state) * d.price == (tail + Trusted(d.state)) * d.price;
    }
  }

  lemma TimesMonotone(a: nat, c: nat, b: nat)
    requires a <= c
    ensures a * b <= c * b
  {
    assert c * b == a * b + (c - a) * b;
  }

  lemma ProductBound(a: nat, b: nat)
    requires a <= U64_MAX && b <= U64_MAX
    ensures a * b <= U64_MAX * U64_MAX
  {
    TimesMonotone(a, U64_MAX, b);
    TimesMonotone(b, U64_MAX, U64_MAX);
  }

  /** A STOP PAYS WHAT IS TRUSTED, exactly, whoever stops and whether or not a dispute is open, unless it
      is the buyer who walks away from the probe. */
  lemma StopPaysTrusted(d: Deal, e: Event)
    requires Live(d.state) && e in {BuyerStop, SellerStop, Release}
    ensures var after := Next(d, e);
            && (after.settlements == Cons(AmicableSplit(Trusted(d.state), 0), d.settlements)
                <==> !(e == BuyerStop && d.state.Probe?))
            && !Live(after.state) && MaxBuyerLoss(d.price, after.state) == 0
  {
  }

  /** Every amicable split pays the greatest confirmed total, or nothing. */
  predicate PaysByFact(ss: List<Settlement>, confirmed: set<nat>) {
    ss.Nil? ||
    ((ss.head.AmicableSplit? ==>
        ss.head.toBuyerRefund == 0 && (ss.head.toSellerTicks == 0 || Greatest(ss.head.toSellerTicks, confirmed)))
     && PaysByFact(ss.tail, confirmed))
  }

  lemma PaysByFactKept(d: Deal, e: Event)
    requires Pipeline(d) && PaysByFact(d.settlements, d.confirmed)
    ensures PaysByFact(Next(d, e).settlements, Next(d, e).confirmed)
  {
  }

  /** OVER EVERY RUN the seller is paid by fact: every settlement that splits pays the greatest total that
      was confirmed, never one that only was claimed and never an earlier one; or nothing. */
  lemma {:induction false} PaidByFactAlways(d: Deal, es: List<Event>)
    requires Pipeline(d) && Sent(es) && PaysByFact(d.settlements, d.confirmed)
    ensures PaysByFact(Run(d, es).settlements, Run(d, es).confirmed)
    decreases es
  {
    if es.Cons? {
      PipelineKept(d, es.head);
      PaysByFactKept(d, es.head);
      PaidByFactAlways(Next(d, es.head), es.tail);
    }
  }

  /** Some settlement splits and pays nothing. */
  predicate SplitsNothing(ss: List<Settlement>) {
    ss.Cons? && ((ss.head.AmicableSplit? && ss.head.toSellerTicks == 0) || SplitsNothing(ss.tail))
  }

  /** What a guarded run keeps: nothing is claimed on a deal that trusts or has split nothing. */
  predicate NothingForNothing(d: Deal) {
    && (SplitsNothing(d.settlements) ==> d.claimed == {})
    && (d.state.Disputed? && d.state.trusted == 0 ==> d.claimed == {})
    && (SplitsNothing(d.settlements) ==> !d.state.Probe? && !d.state.Streaming?)
  }

  lemma NothingForNothingKept(d: Deal, e: Event)
    requires Pipeline(d) && NothingForNothing(d) && (Unguarded(e) ==> Live(d.state))
    ensures NothingForNothing(Next(d, e))
  {
  }

  /** EARNED IS PAID: on every guarded run a split pays nothing only if nothing was ever claimed. */
  lemma {:induction false} EarnedIsPaid(d: Deal, es: List<Event>)
    requires Pipeline(d) && Sent(es) && NothingForNothing(d) && Guarded(d, es)
    ensures NothingForNothing(Run(d, es))
    decreases es
  {
    if es.Cons? {
      PipelineKept(d, es.head);
      NothingForNothingKept(d, es.head);
      EarnedIsPaid(Next(d, es.head), es.tail);
    }
  }

  /** A CLAIM CONFIRMS the one before it: after two claims and a stop, the first of them is paid. */
  lemma ClaimConfirms(d: Deal, first: nat, second: nat)
    requires Pipeline(d) && d.state.Streaming? && d.state.pending <= first <= second <= U64_MAX
    ensures var es := Cons(Claim(first), Cons(Claim(second), Cons(BuyerStop, Nil)));
            Run(d, es).settlements == Cons(AmicableSplit(first, 0), Nil)
  {
    var d1 := Next(d, Claim(first));
    var d2 := Next(d1, Claim(second));
    var stop := Cons(BuyerStop, Nil);
    assert Run(d2, stop) == Next(d2, BuyerStop);
    assert Run(d1, Cons(Claim(second), stop)) == Run(d2, stop);
  }

  // ------------------------------------------------------------------ where each step leads

  /** Which steps a state refuses: each is said by its state, for every event. */
  lemma RefusedExactly(price: nat, s: State, e: Event)
    ensures Step(price, s, e).answer == Refused <==>
            match e
            case ProbeAccepted => !s.Probe?
            case Claim(total) => !s.Streaming? || total < s.pending
            case Promote => !s.Streaming?
            case BuyerStop => s.Opening? || s.Stopping? || s.Closed?
            case SellerStop => s.Opening? || s.Stopping? || s.Closed?
            case Release => s.Opening? || s.Stopping? || s.Closed?
            case _ => false
    ensures Step(price, s, e).answer == Refused ==> Step(price, s, e).state == s
  {
  }

  /** Where a step that is not refused leads, and whether it settles. */
  lemma LeadsTo(price: nat, s: State, e: Event)
    requires Step(price, s, e).answer != Refused
    ensures var next := Step(price, s, e).state;
            && (next.Streaming? <==> e.ProbeAccepted? || e.Claim? || e.Promote?)
            && (next.Stopping? <==> e.BuyerStop? || e.SellerStop?)
            && (next.Disputed? <==> e.Dispute?)
            && (next.Closed? <==> e.NoShow? || e.Release? || e.Timeout? || e.Close?)
    ensures Step(price, s, e).answer.Settled? <==>
            e.BuyerStop? || e.SellerStop? || e.NoShow? || e.Release? || e.Timeout?
  {
  }

  /** A no-show burns nothing: the seller's whole bond goes back to him, from every state. */
  lemma NoShowReturnsTheBond(d: Deal)
    ensures Next(d, NoShow).settlements == Cons(SellerNoShow(0, 2 * d.price), d.settlements)
  {
  }

  /** A timeout burns the whole bond and, mirrored, as much of the buyer's escrow; nothing returns. */
  lemma TimeoutBurnsBoth(d: Deal)
    requires 2 * d.price <= U64_MAX
    ensures Next(d, Timeout).settlements
         == Cons(BurnBoth(ContestedBurn(2 * d.price, 0, 2 * d.price, 0)), d.settlements)
  {
  }

  // ------------------------------------------------------------------ one deal, one settlement

  function Rank(s: State): (n: nat) {
    match s
    case Opening => 0
    case Probe(_) => 1
    case Streaming(_, _) => 2
    case Disputed(_, _) => 3
    case Stopping => 4
    case Closed => 5
  }

  /** The three steps that check no state. */
  predicate Unguarded(e: Event) {
    e.NoShow? || e.Dispute? || e.Timeout?
  }

  /** The unguarded steps are taken on a live deal only. */
  predicate Guarded(d: Deal, es: List<Event>)
    decreases es
  {
    es.Nil? || ((Unguarded(es.head) ==> Live(d.state)) && Guarded(Next(d, es.head), es.tail))
  }

  lemma GuardedStepMovesForward(d: Deal, e: Event)
    requires Unguarded(e) ==> Live(d.state)
    ensures Rank(d.state) <= Rank(Next(d, e).state)
    ensures Next(d, e).state.Streaming? ==> d.state.Probe? || d.state.Streaming?
    ensures || Next(d, e).settlements == d.settlements
            || (Live(d.state) && !Live(Next(d, e).state) && Length(Next(d, e).settlements) == Length(d.settlements) + 1)
  {
  }

  /** A live deal has settled nothing. */
  predicate SettledOnce(d: Deal) {
    Length(d.settlements) <= 1 && (Live(d.state) ==> d.settlements.Nil?) && !d.state.Opening?
  }

  /** ONE DEAL, ONE SETTLEMENT: on every guarded run, from every deal that has settled at most once,
      the state only moves forward, streaming is never re-entered, and nothing settles twice. */
  lemma {:induction false} OneSettlement(d: Deal, es: List<Event>)
    requires SettledOnce(d) && Guarded(d, es)
    ensures SettledOnce(Run(d, es)) && Rank(d.state) <= Rank(Run(d, es).state)
    ensures Run(d, es).state.Streaming? ==> d.state.Probe? || d.state.Streaming?
    decreases es
  {
    if es.Cons? {
      GuardedStepMovesForward(d, es.head);
      OneSettlement(Next(d, es.head), es.tail);
    }
  }

  /** THE GUARD IS EXACTLY WHAT IS MISSING: on a deal that has ended, a step leaves it ended and
      settles nothing if and only if it is not one of the three unguarded ones. */
  lemma EndedStaysEndedExactly(d: Deal, e: Event)
    requires d.state.Stopping? || d.state.Closed?
    ensures (Next(d, e).settlements == d.settlements && !Live(Next(d, e).state)) <==> !Unguarded(e)
  {
    assert e.NoShow? || e.Timeout? ==> Length(Next(d, e).settlements) == Length(d.settlements) + 1;
  }

  /** Each of the three, unguarded, settles a stopped deal a second time. */
  lemma UnguardedSettlesTwice(price: nat)
    ensures Length(Run(Opened(price), Cons(BuyerStop, Cons(NoShow, Nil))).settlements) == 2
    ensures Length(Run(Opened(price), Cons(BuyerStop, Cons(Timeout, Nil))).settlements) == 2
    ensures Length(Run(Opened(price), Cons(BuyerStop, Cons(Dispute, Cons(BuyerStop, Nil)))).settlements) == 2
  {
    var stopped := Next(Opened(price), BuyerStop);
    assert Length(stopped.settlements) == 1 && stopped.state == Stopping;
    assert Run(Opened(price), Cons(BuyerStop, Cons(NoShow, Nil))) == Next(stopped, NoShow);
    assert Run(Opened(price), Cons(BuyerStop, Cons(Timeout, Nil))) == Next(stopped, Timeout);
    var revived := Next(stopped, Dispute);
    assert Run(revived, Cons(BuyerStop, Nil)) == Next(revived, BuyerStop);
  }

  // ------------------------------------------------------------------ the bond

  function BurnOf(d: Deal, e: Event): (r: Option<ContestedBurn>) {
    var answer := Step(d.price, d.state, e).answer;
    if answer.Settled? && answer.settlement.BurnBoth? then Some(answer.settlement.burn) else None
  }

  /** THE BOND IS SPLIT WITHOUT LOSS exactly when twice the price fits a `u64`: what burns and what
      returns is the whole mirror bond, at a probe stop and at a dispute timeout alike. */
  lemma BondConservedExactly(d: Deal, e: Event)
    requires Pipeline(d) && (e == Timeout || (e == BuyerStop && d.state.Probe?))
    ensures var burn := BurnOf(d, e);
            burn.Some? && (burn.value.seller + burn.value.sellerRefund == 2 * d.price <==> 2 * d.price <= U64_MAX)
    ensures e == Timeout ==> BurnOf(d, e).value.buyer == BurnOf(d, e).value.seller
    ensures e == BuyerStop && 2 * d.price <= U64_MAX ==>
              BurnOf(d, e).value == ContestedBurn(d.price, 0, d.price, d.price)
  {
  }
}
