/** The stream state machine of `machine.rs`: the object as the code mutates it, and the step
    function its methods are proved against. */
module Machine {
  import opened Wrappers
  import opened Numerals
  import opened Settle

  datatype Tick = Tick(index: nat, price: nat)

  datatype State =
    | Opening
    | Probe(tick: Tick)
    | Streaming(trusted: nat, pending: nat)
    | Stopping
    | Disputed(trusted: nat, contested: nat)
    | Closed

  datatype Settlement =
    | BurnBoth(burn: ContestedBurn)
    | AmicableSplit(toSellerTicks: nat, toBuyerRefund: nat)
    | SellerNoShow(toBuyerRefund: nat, sellerBondReturned: nat)

  datatype Event =
    | ProbeAccepted
    | Claim(cumulative: nat)
    | Promote
    | BuyerStop
    | SellerStop
    | NoShow
    | Dispute
    | Release
    | Timeout
    | Close

  /** How a step answers: it refuses (an error or a panic, the state untouched), moves, or settles. */
  datatype Answer = Refused | Moved | Settled(settlement: Settlement)

  datatype Outcome = Outcome(state: State, answer: Answer)

  predicate Live(s: State) {
    s.Probe? || s.Streaming? || s.Disputed?
  }

  /** Promoted consumption: what the seller has earned. */
  function Trusted(s: State): (n: nat) {
    if s.Streaming? || s.Disputed? then s.trusted else 0
  }

  /** The bond as the settlement formulas take it: clamped to a `u64`. */
  function Bond(price: nat): (n: nat) {
    if 2 * price <= U64_MAX then 2 * price else U64_MAX
  }

  /** One transition of a deal at tick price `price`. */
  function Step(price: nat, s: State, e: Event): (r: Outcome) {
    match e
    case ProbeAccepted => if s.Probe? then Outcome(Streaming(1, 1), Moved) else Outcome(s, Refused)
    case Claim(cumulative) =>
      if s.Streaming? && cumulative >= s.pending then Outcome(Streaming(s.pending, cumulative), Moved)
      else Outcome(s, Refused)
    case Promote =>
      if s.Streaming? then Outcome(Streaming(s.pending, s.pending), Moved) else Outcome(s, Refused)
    case BuyerStop =>
      if s.Probe? then Outcome(Stopping, Settled(BurnBoth(ProbeBurn(s.tick.price, Bond(price)))))
      else if Live(s) then Outcome(Stopping, Settled(AmicableSplit(Trusted(s), 0)))
      else Outcome(s, Refused)
    case SellerStop =>
      if Live(s) then Outcome(Stopping, Settled(AmicableSplit(Trusted(s), 0))) else Outcome(s, Refused)
    case NoShow => Outcome(Closed, Settled(SellerNoShow(0, 2 * price)))
    case Dispute =>
      var tail := if s.Streaming? then (if s.pending >= s.trusted then s.pending - s.trusted else 0)
                  else if s.Disputed? then s.contested else 0;
      Outcome(Disputed(Trusted(s), tail), Moved)
    case Release =>
      if Live(s) then Outcome(Closed, Settled(AmicableSplit(Trusted(s), 0))) else Outcome(s, Refused)
    case Timeout => Outcome(Closed, Settled(BurnBoth(Contested(Bond(price), Bond(price)))))
    case Close => Outcome(Closed, Moved)
  }

  /** The buyer's at-risk value: the claims that have not been through their window. */
  function MaxBuyerLoss(price: nat, s: State): (n: nat) {
    var tail: nat := match s
      case Probe(_) => 1
      case Streaming(trusted, pending) => if pending >= trusted then pending - trusted else 0
      case Disputed(_, contested) => contested
      case _ => 0;
    if tail * price <= U128_MAX then tail * price else U128_MAX
  }

  /** What the fields of a machine hold at any time. */
  predicate InRange(price: nat, s: State) {
    match s
    case Probe(tick) => tick.price == price
    case Streaming(trusted, pending) => trusted <= pending <= U64_MAX
    case Disputed(trusted, contested) => trusted + contested <= U64_MAX
    case _ => true
  }

  class StreamMachine {
    var state: State
    var price: nat
    var sellerBond: nat

    ghost predicate Valid()
      reads this
    {
      price <= U64_MAX && sellerBond == 2 * price && InRange(price, state)
    }

    constructor Open(price: nat)
      requires price <= U64_MAX
      ensures Valid() && this.price == price && state == Probe(Tick(0, price))
    {
      this.price := price;
      state := Probe(Tick(0, price));
      sellerBond := price * 2;
    }

    method OnProbeAccepted() returns (ok: bool)
      requires Valid()
      modifies this`state
      ensures Valid() && state == Step(price, old(state), ProbeAccepted).state
      ensures ok <==> Step(price, old(state), ProbeAccepted).answer == Moved
    {
      ok := state.Probe?;
      if ok {
        state := Streaming(1, 1);
      }
    }

    method OnClaim(cumulative: nat) returns (ok: bool)
      requires Valid() && cumulative <= U64_MAX
      modifies this`state
      ensures Valid() && state == Step(price, old(state), Claim(cumulative)).state
      ensures ok <==> Step(price, old(state), Claim(cumulative)).answer == Moved
    {
      if !state.Streaming? || cumulative < state.pending {
        return false;
      }
      state := Streaming(state.pending, cumulative);
      ok := CheckInvariant();
    }

    method OnPromote() returns (ok: bool)
      requires Valid()
      modifies this`state
      ensures Valid() && state == Step(price, old(state), Promote).state
      ensures ok <==> Step(price, old(state), Promote).answer == Moved
    {
      if !state.Streaming? {
        return false;
      }
      state := Streaming(state.pending, state.pending);
      ok := CheckInvariant();
    }

    /** The check every claim step makes on the state it has just written. */
    method CheckInvariant() returns (ok: bool)
      ensures ok <==> (state.Streaming? ==> state.pending >= state.trusted)
    {
      ok := !(state.Streaming? && state.pending < state.trusted);
    }

    method BuyerStop() returns (r: Option<Settlement>)
      requires Valid()
      modifies this`state
      ensures Valid() && Answers(old(state), Event.BuyerStop, r)
    {
      match state {
        case Probe(tick) =>
          var bond := if sellerBond <= U64_MAX then sellerBond else U64_MAX;
          r := Some(BurnBoth(ProbeBurn(tick.price, bond)));
        case Streaming(trusted, _) => r := Some(AmicableSplit(trusted, 0));
        case Disputed(trusted, _) => r := Some(AmicableSplit(trusted, 0));
        case _ => return None;
      }
      state := Stopping;
    }

    method SellerStop() returns (r: Option<Settlement>)
      requires Valid()
      modifies this`state
      ensures Valid() && Answers(old(state), Event.SellerStop, r)
    {
      if !Live(state) {
        return None;
      }
      r := Some(AmicableSplit(Trusted(state), 0));
      state := Stopping;
    }

    method SellerNoShow() returns (r: Option<Settlement>)
      requires Valid()
      modifies this`state
      ensures Valid() && Answers(old(state), NoShow, r)
    {
      r := Some(Settlement.SellerNoShow(0, sellerBond));
      state := Closed;
    }

    method BuyerDispute()
      requires Valid()
      modifies this`state
      ensures Valid() && state == Step(price, old(state), Dispute).state
    {
      var trusted, pending := 0, 0;
      if state.Streaming? {
        trusted, pending := state.trusted, state.pending;
      } else if state.Disputed? {
        trusted, pending := state.trusted, state.trusted + state.contested;
      }
      state := Disputed(trusted, if pending >= trusted then pending - trusted else 0);
    }

    method ReleaseDispute() returns (r: Option<Settlement>)
      requires Valid()
      modifies this`state
      ensures Valid() && Answers(old(state), Release, r)
    {
      if !Live(state) {
        return None;
      }
      r := Some(AmicableSplit(Trusted(state), 0));
      state := Closed;
    }

    method ResolveDisputeTimeout() returns (r: Option<Settlement>)
      requires Valid()
      modifies this`state
      ensures Valid() && Answers(old(state), Timeout, r)
    {
      var bond := if sellerBond <= U64_MAX then sellerBond else U64_MAX;
      r := Some(BurnBoth(Contested(bond, bond)));
      state := Closed;
    }

    method CloseDeal()
      requires Valid()
      modifies this`state
      ensures Valid() && state == Closed
    {
      state := Closed;
    }

    /** The new state and the answer are the step's. */
    ghost predicate Answers(before: State, e: Event, r: Option<Settlement>)
      reads this
    {
      var step := Step(price, before, e);
      state == step.state && step.answer == if r.Some? then Settled(r.value) else Refused
    }
  }
}
