/** Lenders' scaled shares: what they are worth, that the worth is covered, and when paying it can overflow. */
module Shares {
  import opened Machine
  import opened Rounding
  import opened Totals
  import opened Lending
  import opened History
  import opened Accruing
  import opened Accounting
  import opened Steps

  /** The largest number of scaled units, or of tokens, whose product with RAY fits 128 bits. */
  const LIMIT: int := 340_282_366_920

  // ----- what a position is worth -----

  /** Tokens a position is worth, before the cast to 64 bits. */
  function Entitlement(p: LenderPosition, scaleFactor: int): int {
    p.scaledDeposit * scaleFactor / RAY
  }

  function Entitlements(lenders: map<Pubkey, LenderPosition>, scaleFactor: int): Amounts {
    map l | l in lenders :: Entitlement(lenders[l], scaleFactor)
  }

  lemma EntitlementBounds(p: LenderPosition, scaleFactor: int)
    requires RAY <= scaleFactor
    ensures 0 <= Entitlement(p, scaleFactor)
    ensures RAY * Entitlement(p, scaleFactor) <= p.scaledDeposit * scaleFactor
    ensures p.scaledDeposit * scaleFactor <= RAY * p.totalDeposited + ExcessOf(p, scaleFactor)
  {
  }

  /** Taken together, all open lenders are worth at most the deposits plus the interest earned. */
  lemma EntitlementsAreCovered(w: World)
    requires Reachable(w)
    ensures Total(Excess(w.market.lenders, w.market.pool.scaleFactor)) <= w.market.pool.totalInterestEarned * RAY
    ensures Total(Entitlements(w.market.lenders, w.market.pool.scaleFactor))
         <= w.market.pool.totalDeposits + w.market.pool.totalInterestEarned
  {
    ReachableInvariant(w);
    CoveredEntitlements(w.market, w.clock);
  }

  /** In units of 1/RAY, all open positions are worth at most what was deposited and the open excess. */
  lemma WorthIsNominalAndExcess(m: Market, clock: i64)
    requires Consistent(m, clock)
    ensures RAY * Total(Entitlements(m.lenders, m.pool.scaleFactor))
         <= RAY * m.pool.totalDeposits + Total(Excess(m.lenders, m.pool.scaleFactor))
  {
    var sf := m.pool.scaleFactor;
    var scaled := map l | l in m.lenders :: RAY * Entitlement(m.lenders[l], sf);
    var nominal := map l | l in m.lenders :: RAY * m.lenders[l].totalDeposited;
    var worth := map l | l in m.lenders :: nominal[l] + ExcessOf(m.lenders[l], sf);
    TotalScaled(RAY, Entitlements(m.lenders, sf), scaled);
    TotalScaled(RAY, Nominal(m.lenders), nominal);
    TotalSum(nominal, Excess(m.lenders, sf), worth);
    forall l | l in m.lenders
      ensures scaled[l] <= worth[l]
    {
      EntitlementBounds(m.lenders[l], sf);
    }
    TotalMonotone(scaled, worth);
  }

  lemma CoveredEntitlements(m: Market, clock: i64)
    requires Consistent(m, clock) && ExcessCovered(m)
    ensures Total(Entitlements(m.lenders, m.pool.scaleFactor)) <= m.pool.totalDeposits + m.pool.totalInterestEarned
  {
    WorthIsNominalAndExcess(m, clock);
  }

  // ----- overflow -----

  /** The payout of a position is computed without overflow exactly while its product fits. */
  lemma PayoutFailsExactly(p: LenderPosition, scaleFactor: u128)
    ensures PayoutFor(p.scaledDeposit, scaleFactor).Ok? <==> p.scaledDeposit * scaleFactor < U128_MODULUS
    ensures PayoutFor(p.scaledDeposit, scaleFactor).Ok? ==>
              PayoutFor(p.scaledDeposit, scaleFactor).value == Entitlement(p, scaleFactor) % U64_MODULUS
  {
  }

  /** The excess of one lender is at most the excess of all. */
  lemma OneExcessCovered(m: Market, l: Pubkey)
    requires ExcessCovered(m) && l in m.lenders
    ensures ExcessOf(m.lenders[l], m.pool.scaleFactor) <= m.pool.totalInterestEarned * RAY
  {
    TotalNonNegative(Excess(m.lenders, m.pool.scaleFactor));
    assert Excess(m.lenders, m.pool.scaleFactor)[l] == ExcessOf(m.lenders[l], m.pool.scaleFactor);
  }

  /** A product of at most LIMIT whole rays is paid out exactly. */
  lemma PayoutExact(p: LenderPosition, scaleFactor: u128, bound: int)
    requires p.scaledDeposit * scaleFactor <= RAY * bound && RAY * bound < U128_MODULUS
    ensures PayoutFor(p.scaledDeposit, scaleFactor) == Ok(Entitlement(p, scaleFactor))
    ensures Entitlement(p, scaleFactor) <= bound
  {
  }

  /** While deposits and interest stay within LIMIT, every open position's payout is exact. */
  lemma PayoutsFit(m: Market, clock: i64, l: Pubkey)
    requires Consistent(m, clock) && ExcessCovered(m) && l in m.lenders
    requires m.pool.totalDeposits + m.pool.totalInterestEarned <= LIMIT
    ensures PayoutFor(m.lenders[l].scaledDeposit, m.pool.scaleFactor)
         == Ok(Entitlement(m.lenders[l], m.pool.scaleFactor))
    ensures Entitlement(m.lenders[l], m.pool.scaleFactor)
         <= m.lenders[l].totalDeposited + m.pool.totalInterestEarned
  {
    var p, sf := m.lenders[l], m.pool.scaleFactor;
    assert p.totalDeposited <= m.pool.totalDeposits by {
      TotalNonNegative(Nominal(m.lenders));
      assert Nominal(m.lenders)[l] == p.totalDeposited;
    }
    assert p.scaledDeposit * sf <= RAY * (p.totalDeposited + m.pool.totalInterestEarned) by {
      OneExcessCovered(m, l);
      EntitlementBounds(p, sf);
    }
    PayoutExact(p, sf, p.totalDeposited + m.pool.totalInterestEarned);
  }

  // ----- when an accrual goes through -----

  /** What the pool would credit to its lenders and as fees, casts included. */
  function Earned(p: Pool, gross: int): int {
    p.totalInterestEarned + LenderShare(gross) % U64_MODULUS
  }

  function Fees(p: Pool, gross: int): int {
    p.accruedProtocolFees + ProtocolShare(gross) % U64_MODULUS
  }

  /** The sums and products of an accrual that books `gross` fit their widths. */
  predicate CreditFits(p: Pool, gross: int)
    requires p.totalDeposits != 0
  {
    && Earned(p, gross) <= LIMIT
    && RAY + Earned(p, gross) * RAY / p.totalDeposits < U128_MODULUS
    && Fees(p, gross) < U64_MODULUS
  }

  /** Simple interest overflows exactly when the product of principal, rate and time does. */
  lemma InterestSucceedsExactly(principal: u64, bips: u16, seconds: u128)
    ensures 0 <= principal * bips * seconds
    ensures SimpleInterest(principal, bips, seconds).Ok? <==> principal * bips * seconds < U128_MODULUS
    ensures SimpleInterest(principal, bips, seconds).Ok? ==>
              SimpleInterest(principal, bips, seconds).value == principal * bips * seconds / PERIOD
  {
    assert 0 <= principal * bips < U128_MODULUS by {
      ProductMonotone(principal, bips, 0x1_0000);
      ProductNonNegative(principal, bips);
    }
    ProductNonNegative(principal * bips, seconds);
    FloorAtLeast(principal * bips * seconds, PERIOD, 0);
    FloorAtMost(principal * bips * seconds, PERIOD, principal * bips * seconds);
  }

  /** Seconds an accrual charges: a clock that went back wraps around in 128 bits. */
  function Elapsed(p: Pool, now: int): int {
    if p.lastAccrual <= now then now - p.lastAccrual else now - p.lastAccrual + U128_MODULUS
  }

  /** The steps of an accrual after its interest is computed. */
  lemma CreditSucceedsExactly(p: Pool, now: i64, gross: u128)
    requires p.lastAccrual != now && SubI64(now, p.lastAccrual).Ok?
    requires p.totalBorrows != 0 && p.totalDeposits != 0
    requires SimpleInterest(p.totalBorrows, p.minInterestBips, Elapsed(p, now)) == Ok(gross)
    requires gross * PERIOD < U128_MODULUS
    ensures Accrue(p, now).Ok? <==> CreditFits(p, gross)
  {
    hide SimpleInterest;
    FeeShare(gross);
    ProductNonNegative(Earned(p, gross), RAY);
    FloorAtLeast(Earned(p, gross) * RAY, p.totalDeposits, 0);
    if Earned(p, gross) <= LIMIT {
      ProductMonotone(Earned(p, gross) * RAY, 1, p.totalDeposits);
      FloorAtMost(Earned(p, gross) * RAY, p.totalDeposits, Earned(p, gross) * RAY);
    }
  }

  /**
   An accrual succeeds exactly when the clock difference fits, and either it
   is not effective, or the interest product fits 128 bits, the interest
   booked stays within LIMIT, and the new scale factor and fees fit. This
   holds for a clock that went back as well.
   */
  lemma AccrueSucceedsExactly(p: Pool, now: i64)
    ensures Accrue(p, now).Ok?
       <==> && -I64_MAX - 1 <= now - p.lastAccrual <= I64_MAX
            && (p.lastAccrual != now && p.totalBorrows != 0 && p.totalDeposits != 0 ==>
                  && p.totalBorrows * p.minInterestBips * Elapsed(p, now) < U128_MODULUS
                  && CreditFits(p, GrossInterest(p, Elapsed(p, now))))
  {
    hide SimpleInterest;
    hide CreditFits;
    if p.lastAccrual != now && SubI64(now, p.lastAccrual).Ok? && p.totalBorrows != 0 && p.totalDeposits != 0 {
      var interest := SimpleInterest(p.totalBorrows, p.minInterestBips, Elapsed(p, now));
      InterestSucceedsExactly(p.totalBorrows, p.minInterestBips, Elapsed(p, now));
      if interest.Ok? {
        FloorBounds(p.totalBorrows * p.minInterestBips * Elapsed(p, now), PERIOD);
        CreditSucceedsExactly(p, now, interest.value);
      }
    }
  }

  /** On a clock that went back an effective accrual fails, unless rate and borrows are next to nothing. */
  lemma BackwardClockFails(p: Pool, now: i64)
    requires now < p.lastAccrual && 0 < p.totalBorrows && 0 < p.totalDeposits
    requires 2 <= p.totalBorrows * p.minInterestBips
    ensures Accrue(p, now).Err?
  {
    hide Accrue;
    AccrueSucceedsExactly(p, now);
    if SubI64(now, p.lastAccrual).Ok? {
      ProductMonotone(Elapsed(p, now), 2, p.totalBorrows * p.minInterestBips);
    }
  }

  /** What an accrual now would credit to the lenders. */
  function PendingInterest(p: Pool, now: int): int {
    if p.totalDeposits == 0 then 0 else LenderShare(GrossInterest(p, now - p.lastAccrual))
  }

  lemma GrossWithinLimit(p: Pool, seconds: int)
    requires 0 <= seconds && LenderShare(GrossInterest(p, seconds)) <= LIMIT
    ensures 0 <= GrossInterest(p, seconds) < U64_MODULUS
    ensures p.totalBorrows * p.minInterestBips * seconds < U128_MODULUS
  {
    ProductNonNegative(p.totalBorrows, p.minInterestBips);
    ProductNonNegative(p.totalBorrows * p.minInterestBips, seconds);
    FloorBounds(p.totalBorrows * p.minInterestBips * seconds, PERIOD);
  }

  lemma FactorFits(earned: int, deposits: int)
    requires 0 < deposits && 0 <= earned && deposits + earned <= LIMIT
    ensures RAY + earned * RAY / deposits < U128_MODULUS
  {
  }

  /** Within LIMIT, pending interest included, an accrual succeeds and credits what was pending. */
  lemma AccrualWithinLimit(p: Pool, now: i64)
    requires p.lastAccrual <= now && now - p.lastAccrual <= I64_MAX
    requires p.totalDeposits + p.totalInterestEarned + PendingInterest(p, now) <= LIMIT
    requires p.accruedProtocolFees + ProtocolShare(GrossInterest(p, now - p.lastAccrual)) < U64_MODULUS
    ensures Accrue(p, now).Ok?
    ensures Accrue(p, now).value.totalInterestEarned == p.totalInterestEarned + PendingInterest(p, now)
  {
    hide Accrue;
    AccrueSucceedsExactly(p, now);
    if p.totalDeposits != 0 {
      var gross := GrossInterest(p, now - p.lastAccrual);
      GrossWithinLimit(p, now - p.lastAccrual);
      CastKeepsSmall(gross);
      if p.totalBorrows == 0 || p.lastAccrual == now {
        assert gross == 0;
      } else {
        FactorFits(Earned(p, gross), p.totalDeposits);
      }
    }
    AccrualEffect(p, now);
    NoGross(p);
  }

  /** Within LIMIT, pending interest included, no accrual and no payout of a reachable pool overflows. */
  lemma NoOverflowWithinLimit(w: World, now: i64, l: Pubkey)
    requires Reachable(w) && w.clock <= now && now - w.market.pool.lastAccrual <= I64_MAX
    requires var p := w.market.pool;
             && p.totalDeposits + p.totalInterestEarned + PendingInterest(p, now) <= LIMIT
             && p.accruedProtocolFees + ProtocolShare(GrossInterest(p, now - p.lastAccrual)) < U64_MODULUS
    ensures Accrue(w.market.pool, now).Ok?
    ensures var q := Accrue(w.market.pool, now).value;
            && q.totalInterestEarned == w.market.pool.totalInterestEarned + PendingInterest(w.market.pool, now)
            && (l in w.market.lenders ==>
                  && PayoutFor(w.market.lenders[l].scaledDeposit, q.scaleFactor)
                     == Ok(Entitlement(w.market.lenders[l], q.scaleFactor))
                  && Entitlement(w.market.lenders[l], q.scaleFactor)
                     <= w.market.lenders[l].totalDeposited + q.totalInterestEarned)
  {
    hide Accrue;
    hide PayoutFor;
    hide Entitlement;
    hide GrossInterest;
    ReachableInvariant(w);
    AccrualWithinLimit(w.market.pool, now);
    AccrualEffect(w.market.pool, now);
    AccrualKeepsInvariant(w, now);
    if l in w.market.lenders {
      PayoutsFit(w.market.(pool := Accrue(w.market.pool, now).value), now, l);
    }
  }

  // ----- withdrawing -----

  /** What a lender is actually paid: the worth after the cast to 64 bits. */
  function Payable(p: LenderPosition, scaleFactor: int): int {
    Entitlement(p, scaleFactor) % U64_MODULUS
  }

  /**
   A withdrawal succeeds exactly when the product of units and scale factor
   fits 128 bits and the vault covers the payment and the unclaimed fees; and
   the payment is what leaves the vault.
   */
  lemma WithdrawSucceedsExactly(w: World, now: i64, l: Pubkey)
    requires Reachable(w) && w.clock <= now && l in w.market.lenders
    requires Accrue(w.market.pool, now).Ok?
    ensures var q, p := Accrue(w.market.pool, now).value, w.market.lenders[l];
            var r := Execute(w.market, now, Withdraw(l));
            && (r.Ok? <==> && p.scaledDeposit * q.scaleFactor < U128_MODULUS
                           && Payable(p, q.scaleFactor) + q.accruedProtocolFees <= w.market.vault)
            && (r.Ok? ==> r.value.vault == w.market.vault - Payable(p, q.scaleFactor))
  {
    hide Accrue;
    hide PayoutFor;
    var q, p := Accrue(w.market.pool, now).value, w.market.lenders[l];
    assert RAY <= q.scaleFactor && p.totalDeposited <= q.totalDeposits by {
      ReachableInvariant(w);
      AccrualKeepsExcessCovered(w.market, w.clock, now);
      AccrualEffect(w.market.pool, now);
      TotalNonNegative(Nominal(w.market.lenders));
      assert Nominal(w.market.lenders)[l] == p.totalDeposited;
    }
    PayoutFailsExactly(p, q.scaleFactor);
  }

  // ----- depositing -----

  lemma SharesFailExactly(amount: u64, scaleFactor: u128)
    requires RAY <= scaleFactor
    ensures SharesFor(amount, scaleFactor).Ok? <==> amount <= LIMIT
  {
    if amount <= LIMIT {
      ProductMonotone(amount * RAY, 1, scaleFactor);
      FloorAtMost(amount * RAY, scaleFactor, amount * RAY);
      FloorAtLeast(amount * RAY, scaleFactor, 0);
    }
  }

  lemma DepositOutcome(m: Market, now: i64, l: Pubkey, amount: u64, funds: u64, shares: u64)
    requires Accrue(m.pool, now).Ok?
    requires SharesFor(amount, Accrue(m.pool, now).value.scaleFactor) == Ok(shares) && shares <= amount
    requires l in m.lenders ==>
               m.lenders[l].scaledDeposit <= m.lenders[l].totalDeposited <= Accrue(m.pool, now).value.totalDeposits
    ensures HandleDeposit(m, now, l, amount, funds).Ok?
       <==> && (m.pool.depositWindowEnd == 0 || now <= m.pool.depositWindowEnd)
            && amount <= funds
            && m.vault + amount < U64_MODULUS
            && Accrue(m.pool, now).value.totalDeposits + amount < U64_MODULUS
  {
    hide Accrue;
    hide SharesFor;
  }

  /**
   A deposit goes through exactly while the window is open, the payer has the
   funds, the sums fit 64 bits, and the amount is within LIMIT.
   */
  lemma DepositSucceedsExactly(w: World, now: i64, l: Pubkey, amount: u64, funds: u64)
    requires Reachable(w) && w.clock <= now && Accrue(w.market.pool, now).Ok?
    ensures Execute(w.market, now, Deposit(l, amount, funds)).Ok?
       <==> && (w.market.pool.depositWindowEnd == 0 || now <= w.market.pool.depositWindowEnd)
            && amount <= LIMIT
            && amount <= funds
            && w.market.vault + amount < U64_MODULUS
            && w.market.pool.totalDeposits + amount < U64_MODULUS
  {
    hide Accrue;
    hide SharesFor;
    var m := w.market;
    var q := Accrue(m.pool, now).value;
    assert RAY <= q.scaleFactor && q.totalDeposits == m.pool.totalDeposits
           && (l in m.lenders ==>
                 m.lenders[l].scaledDeposit <= m.lenders[l].totalDeposited <= m.pool.totalDeposits) by {
      ReachableInvariant(w);
      AccrualKeepsExcessCovered(m, w.clock, now);
      AccrualEffect(m.pool, now);
      TotalNonNegative(Nominal(m.lenders));
      assert l in m.lenders ==> Nominal(m.lenders)[l] == m.lenders[l].totalDeposited;
    }
    SharesFailExactly(amount, q.scaleFactor);
    if amount <= LIMIT {
      SharesAreFair(amount, q.scaleFactor);
      DepositOutcome(m, now, l, amount, funds, SharesFor(amount, q.scaleFactor).value);
    }
  }

  // ----- positions too large to pay out -----

  /** A step after which a position of more than LIMIT scaled units is still there, and no smaller. */
  lemma StepKeepsOversized(w: World, e: Event, l: Pubkey)
    requires Invariant(w) && w.clock <= e.now
    requires l in w.market.lenders && LIMIT < w.market.lenders[l].scaledDeposit
    ensures l in Step(w, e).market.lenders
    ensures w.market.lenders[l].scaledDeposit <= Step(w, e).market.lenders[l].scaledDeposit
    ensures e.ix == Withdraw(l) ==> Execute(w.market, e.now, e.ix).Err?
  {
    if Execute(w.market, e.now, e.ix).Ok? {
      InstructionShape(w.market, e);
      if e.ix.Deposit? {
        AccrualKeepsInvariant(w, e.now);
        DepositEffect(w.market, e.now, e.ix.lender, e.ix.amount, e.ix.funds);
      } else if e.ix.Withdraw? {
        WithdrawEffect(w.market, e);
        AccrualKeepsInvariant(w, e.now);
        if e.ix.lender == l {
          OversizedPayoutFails(w.market.lenders[l], Accrue(w.market.pool, e.now).value.scaleFactor);
          assert false;
        }
      }
    }
  }

  lemma OversizedPayoutFails(p: LenderPosition, scaleFactor: u128)
    requires LIMIT < p.scaledDeposit && RAY <= scaleFactor
    ensures PayoutFor(p.scaledDeposit, scaleFactor).Err?
  {
  }

  /** Once a position holds more than LIMIT scaled units, no withdrawal of it succeeds in any later run. */
  lemma {:induction false} OversizedNeverWithdrawn(w: World, es: seq<Event>, l: Pubkey, now: i64)
    requires Invariant(w) && Chronological(w.clock, es)
    requires l in w.market.lenders && LIMIT < w.market.lenders[l].scaledDeposit
    requires Run(w, es).clock <= now
    ensures l in Run(w, es).market.lenders
    ensures HandleWithdraw(Run(w, es).market, now, l).Err?
    decreases |es|
  {
    if es == [] {
      StepKeepsOversized(w, Event(now, Withdraw(l)), l);
    } else {
      StepKeepsOversized(w, es[0], l);
      StepKeepsInvariant(w, es[0]);
      OversizedNeverWithdrawn(Step(w, es[0]), es[1..], l, now);
    }
  }

  // ----- rounding of shares -----

  /** A worth just under whole rays loses at most the missing part, rounded up. */
  lemma WorthRoundsDown(worth: int, amount: int, loss: int)
    requires 0 <= loss && RAY * amount - loss <= worth <= RAY * amount
    ensures amount - (loss + RAY - 1) / RAY <= worth / RAY <= amount
  {
  }

  lemma WorthOf(p: LenderPosition, scaleFactor: int)
    ensures Entitlement(p, scaleFactor) == p.scaledDeposit * scaleFactor / RAY
  {
  }

  /** A deposit valued at the scale factor it was made at loses at most the rounding of one scaled unit. */
  lemma ShareRoundTrip(amount: u64, scaleFactor: u128)
    requires RAY <= scaleFactor && SharesFor(amount, scaleFactor).Ok?
    ensures var payout := PayoutFor(SharesFor(amount, scaleFactor).value, scaleFactor);
            && payout.Ok?
            && amount - (scaleFactor - 1 + RAY - 1) / RAY <= payout.value <= amount
  {
    hide SharesFor;
    hide PayoutFor;
    hide Entitlement;
    var shares := SharesFor(amount, scaleFactor).value;
    SharesAreFair(amount, scaleFactor);
    var p := LenderPosition(amount, shares);
    PayoutExact(p, scaleFactor, amount);
    WorthOf(p, scaleFactor);
    WorthRoundsDown(shares * scaleFactor, amount, scaleFactor - 1);
  }

  /** A deposit buys as many scaled units as tokens exactly at the initial scale factor. */
  lemma ParExactly(amount: u64, scaleFactor: u128)
    requires RAY <= scaleFactor && SharesFor(amount, scaleFactor).Ok?
    ensures SharesFor(amount, scaleFactor).value == amount <==> scaleFactor == RAY || amount == 0
  {
    SharesAreFair(amount, scaleFactor);
    if SharesFor(amount, scaleFactor).value == amount && amount != 0 {
      if RAY < scaleFactor {
        ProductMonotone(amount, RAY + 1, scaleFactor);
        Distribute(amount, RAY, 1);
        assert false;
      }
    }
  }

  /** A deposit leaves a position's distance from par as it was exactly at the initial scale factor. */
  lemma DepositKeepsParExactly(w: World, now: i64, l: Pubkey, amount: u64, funds: u64)
    requires Reachable(w) && w.clock <= now
    requires HandleDeposit(w.market, now, l, amount, funds).Ok?
    ensures var before := if l in w.market.lenders then w.market.lenders[l] else LenderPosition(0, 0);
            var after := HandleDeposit(w.market, now, l, amount, funds).value;
            && l in after.lenders
            && (after.lenders[l].totalDeposited - after.lenders[l].scaledDeposit
                == before.totalDeposited - before.scaledDeposit
                <==> after.pool.scaleFactor == RAY || amount == 0)
  {
    hide Accrue;
    ReachableInvariant(w);
    DepositAccrues(w.market, now, l, amount, funds);
    AccrualKeepsExcessCovered(w.market, w.clock, now);
    DepositEffect(w.market, now, l, amount, funds);
    ParExactly(amount, Accrue(w.market.pool, now).value.scaleFactor);
  }

  lemma DepositAccrues(m: Market, now: i64, l: Pubkey, amount: u64, funds: u64)
    requires HandleDeposit(m, now, l, amount, funds).Ok?
    ensures Accrue(m.pool, now).Ok?
  {
  }

  // ----- lenders who only deposited at the initial factor -----

  ghost predicate AtPar(m: Market, l: Pubkey) {
    l in m.lenders ==> m.lenders[l].scaledDeposit == m.lenders[l].totalDeposited
  }

  /** Every deposit of `l` that goes through does so at the initial scale factor, or is of nothing. */
  predicate DepositsAtPar(w: World, es: seq<Event>, l: Pubkey)
    decreases |es|
  {
    es == [] || (DepositAtPar(w, es[0], l) && DepositsAtPar(Step(w, es[0]), es[1..], l))
  }

  predicate DepositAtPar(w: World, e: Event, l: Pubkey) {
    e.ix.Deposit? && e.ix.lender == l && Execute(w.market, e.now, e.ix).Ok? && e.ix.amount != 0 ==>
      Step(w, e).market.pool.scaleFactor == RAY
  }

  lemma StepKeepsPar(w: World, e: Event, l: Pubkey)
    requires Invariant(w) && w.clock <= e.now && AtPar(w.market, l) && DepositAtPar(w, e, l)
    ensures AtPar(Step(w, e).market, l)
  {
    hide Accrue;
    hide SharesFor;
    if Execute(w.market, e.now, e.ix).Ok? {
      InstructionShape(w.market, e);
      if e.ix.Deposit? {
        AccrualKeepsExcessCovered(w.market, w.clock, e.now);
        DepositEffect(w.market, e.now, e.ix.lender, e.ix.amount, e.ix.funds);
        ParExactly(e.ix.amount, Accrue(w.market.pool, e.now).value.scaleFactor);
      } else if e.ix.Withdraw? {
        WithdrawEffect(w.market, e);
      }
    }
  }

  lemma {:induction false} RunKeepsPar(w: World, es: seq<Event>, l: Pubkey)
    requires Invariant(w) && Chronological(w.clock, es) && AtPar(w.market, l) && DepositsAtPar(w, es, l)
    ensures AtPar(Run(w, es).market, l)
    decreases |es|
  {
    if es == [] {
    } else {
      StepKeepsPar(w, es[0], l);
      StepKeepsInvariant(w, es[0]);
      RunKeepsPar(Step(w, es[0]), es[1..], l);
    }
  }

  lemma ParIsWorthItsDeposits(p: LenderPosition, scaleFactor: int)
    requires p.scaledDeposit == p.totalDeposited && RAY <= scaleFactor
    ensures p.totalDeposited <= Entitlement(p, scaleFactor)
  {
    ProductMonotone(p.scaledDeposit, RAY, scaleFactor);
    FloorAtLeast(p.scaledDeposit * scaleFactor, RAY, p.totalDeposited);
  }

  /**
   A lender all of whose deposits were made at the initial scale factor is
   never worth less than the deposits, whatever the run, and within LIMIT is
   never paid less.
   */
  lemma ParNeverLoses(m: Market, t0: i64, es: seq<Event>, l: Pubkey, now: i64)
    requires Fresh(m, t0) && Chronological(t0, es) && DepositsAtPar(Genesis(m, t0), es, l)
    requires var w := Run(Genesis(m, t0), es);
             && w.clock <= now && l in w.market.lenders
             && Accrue(w.market.pool, now).Ok?
    ensures var w := Run(Genesis(m, t0), es);
            var q, p := Accrue(w.market.pool, now).value, w.market.lenders[l];
            && p.totalDeposited <= Entitlement(p, q.scaleFactor)
            && (q.totalDeposits + q.totalInterestEarned <= LIMIT ==>
                  && PayoutFor(p.scaledDeposit, q.scaleFactor).Ok?
                  && p.totalDeposited <= PayoutFor(p.scaledDeposit, q.scaleFactor).value)
  {
    hide Accrue;
    hide PayoutFor;
    hide Entitlement;
    GenesisInvariant(m, t0);
    RunKeepsPar(Genesis(m, t0), es, l);
    RunKeepsInvariant(Genesis(m, t0), es);
    var w := Run(Genesis(m, t0), es);
    var q := Accrue(w.market.pool, now).value;
    AccrualKeepsInvariant(w, now);
    ParIsWorthItsDeposits(w.market.lenders[l], q.scaleFactor);
    if q.totalDeposits + q.totalInterestEarned <= LIMIT {
      PayoutsFit(w.market.(pool := q), now, l);
    }
  }

  // ----- one deposit or several -----

  function Sum(xs: seq<u64>): int {
    if xs == [] then 0 else xs[0] + Sum(xs[1..])
  }

  /** Scaled units bought part by part. */
  function SharesOfParts(amounts: seq<u64>, scaleFactor: int): int
    requires 0 < scaleFactor
  {
    if amounts == [] then 0 else amounts[0] * RAY / scaleFactor + SharesOfParts(amounts[1..], scaleFactor)
  }

  lemma FloorOfSum(x: int, y: int, n: int)
    requires 0 < n
    ensures x / n + y / n <= (x + y) / n <= x / n + y / n + 1
  {
    FloorBounds(x, n);
    FloorBounds(y, n);
    Distribute(n, x / n, y / n);
    FloorAtLeast(x + y, n, x / n + y / n);
    Distribute(n, x / n + y / n, 1);
    FloorAtMost(x + y, n, x / n + y / n + 1);
  }

  lemma {:induction false} FloorsOfParts(amounts: seq<u64>, scaleFactor: int)
    requires 0 < scaleFactor && amounts != []
    ensures SharesOfParts(amounts, scaleFactor) <= Sum(amounts) * RAY / scaleFactor
    ensures Sum(amounts) * RAY / scaleFactor <= SharesOfParts(amounts, scaleFactor) + |amounts| - 1
  {
    if |amounts| == 1 {
      assert amounts[1..] == [];
      assert Sum(amounts) == amounts[0];
      assert SharesOfParts(amounts, scaleFactor) == amounts[0] * RAY / scaleFactor;
    } else {
      FloorsOfParts(amounts[1..], scaleFactor);
      FloorOfSum(amounts[0] * RAY, Sum(amounts[1..]) * RAY, scaleFactor);
      assert Sum(amounts) * RAY == amounts[0] * RAY + Sum(amounts[1..]) * RAY;
    }
  }

  lemma {:induction false} PartsNonNegative(amounts: seq<u64>, scaleFactor: int)
    requires 0 < scaleFactor
    ensures 0 <= Sum(amounts) && 0 <= SharesOfParts(amounts, scaleFactor)
  {
    if amounts == [] {
    } else {
      PartsNonNegative(amounts[1..], scaleFactor);
      FloorAtLeast(amounts[0] * RAY, scaleFactor, 0);
    }
  }

  /** The same lender depositing the amounts one after the other, bringing just enough for each. */
  function DepositParts(m: Market, now: i64, l: Pubkey, amounts: seq<u64>): Outcome<Market>
    decreases |amounts|
  {
    if amounts == [] then
      Ok(m)
    else
      var after :- HandleDeposit(m, now, l, amounts[0], amounts[0]);
      DepositParts(after, now, l, amounts[1..])
  }

  function PositionOf(m: Market, l: Pubkey): LenderPosition {
    if l in m.lenders then m.lenders[l] else LenderPosition(0, 0)
  }

  /** The market with `amount` more tokens and `units` more scaled units of one lender. */
  ghost predicate HasAdded(m: Market, l: Pubkey, amount: int, units: int, after: Market) {
    && l in after.lenders
    && after.pool.totalDeposits == m.pool.totalDeposits + amount
    && after.vault == m.vault + amount
    && after.lenders[l].totalDeposited == PositionOf(m, l).totalDeposited + amount
    && after.lenders[l].scaledDeposit == PositionOf(m, l).scaledDeposit + units
    && after == m.(pool := m.pool.(totalDeposits := after.pool.totalDeposits), vault := after.vault,
                   lenders := m.lenders[l := after.lenders[l]])
  }

  /** Deposits at this time do not accrue. */
  predicate Steady(p: Pool, now: i64) {
    && RAY <= p.scaleFactor
    && SubI64(now, p.lastAccrual).Ok?
    && (now == p.lastAccrual || p.totalBorrows == 0)
  }

  /** There is room for `amount` more tokens and `units` more scaled units. */
  predicate HasRoom(m: Market, now: i64, l: Pubkey, amount: int, units: int) {
    && (m.pool.depositWindowEnd == 0 || now <= m.pool.depositWindowEnd)
    && amount <= LIMIT
    && m.vault + amount < U64_MODULUS
    && m.pool.totalDeposits + amount < U64_MODULUS
    && PositionOf(m, l).totalDeposited + amount < U64_MODULUS
    && PositionOf(m, l).scaledDeposit + units < U64_MODULUS
  }

  lemma SteadyDeposit(m: Market, now: i64, l: Pubkey, amount: u64, funds: u64)
    requires Steady(m.pool, now)
    ensures var units := amount * RAY / m.pool.scaleFactor; var r := HandleDeposit(m, now, l, amount, funds);
            && (r.Ok? <==> amount <= funds && HasRoom(m, now, l, amount, units))
            && (r.Ok? ==> HasAdded(m, l, amount, units, r.value) && Steady(r.value.pool, now))
  {
    hide SharesFor;
    assert Accrue(m.pool, now) == Ok(m.pool);
    SharesFailExactly(amount, m.pool.scaleFactor);
    if amount <= LIMIT {
      SharesAreFair(amount, m.pool.scaleFactor);
    }
  }

  lemma {:induction false} SteadyParts(m: Market, now: i64, l: Pubkey, amounts: seq<u64>)
    requires Steady(m.pool, now) && amounts != []
    requires HasRoom(m, now, l, Sum(amounts), SharesOfParts(amounts, m.pool.scaleFactor))
    ensures DepositParts(m, now, l, amounts).Ok?
    ensures HasAdded(m, l, Sum(amounts), SharesOfParts(amounts, m.pool.scaleFactor),
                     DepositParts(m, now, l, amounts).value)
    decreases |amounts|
  {
    hide HandleDeposit;
    var rest, units := amounts[1..], amounts[0] * RAY / m.pool.scaleFactor;
    PartsNonNegative(rest, m.pool.scaleFactor);
    FloorAtLeast(amounts[0] * RAY, m.pool.scaleFactor, 0);
    SteadyDeposit(m, now, l, amounts[0], amounts[0]);
    var after := HandleDeposit(m, now, l, amounts[0], amounts[0]).value;
    if rest == [] {
      assert DepositParts(after, now, l, rest) == Ok(after);
    } else {
      SteadyParts(after, now, l, rest);
    }
  }

  /** A pool with loans and a past to accrue, but without deposits to accrue on. */
  predicate EmptiedWithLoans(p: Pool, now: i64) {
    p.totalDeposits == 0 && p.totalBorrows != 0 && p.lastAccrual < now
  }

  /** A deposit after which no further deposit at the same time accrues works on the accrued pool. */
  lemma DepositAfterAccrual(m: Market, now: i64, l: Pubkey, amount: u64, funds: u64)
    requires m.pool.lastAccrual <= now && Accrue(m.pool, now).Ok?
    requires !EmptiedWithLoans(m.pool, now)
    ensures var q := Accrue(m.pool, now).value;
            && HandleDeposit(m, now, l, amount, funds) == HandleDeposit(m.(pool := q), now, l, amount, funds)
            && SubI64(now, q.lastAccrual).Ok? && (now == q.lastAccrual || q.totalBorrows == 0)
  {
    hide SharesFor;
    AccrualEffect(m.pool, now);
    assert Accrue(Accrue(m.pool, now).value, now) == Accrue(m.pool, now);
  }

  /** The same accounts, but for up to n - 1 fewer scaled units of one lender. */
  predicate SameUpToRounding(parts: Market, whole: Market, l: Pubkey, n: int) {
    && l in whole.lenders && l in parts.lenders
    && whole.lenders[l].scaledDeposit - (n - 1) <= parts.lenders[l].scaledDeposit <= whole.lenders[l].scaledDeposit
    && parts == whole.(lenders := whole.lenders[l := whole.lenders[l].(
                                    scaledDeposit := parts.lenders[l].scaledDeposit)])
  }

  predicate AllButLastZero(amounts: seq<u64>) {
    forall i :: 0 <= i < |amounts| - 1 ==> amounts[i] == 0
  }

  /** With deposits, without loans, or right after an accrual. */
  lemma SplitRegularDeposit(m: Market, now: i64, l: Pubkey, amounts: seq<u64>, sum: u64, funds: u64)
    requires m.pool.lastAccrual <= now && !EmptiedWithLoans(m.pool, now)
    requires Accrue(m.pool, now).Ok? && RAY <= Accrue(m.pool, now).value.scaleFactor
    requires amounts != [] && sum == Sum(amounts)
    requires HandleDeposit(m, now, l, sum, funds).Ok?
    ensures DepositParts(m, now, l, amounts).Ok?
    ensures SameUpToRounding(DepositParts(m, now, l, amounts).value, HandleDeposit(m, now, l, sum, funds).value, l,
                             |amounts|)
  {
    hide HandleDeposit;
    hide Accrue;
    hide SharesOfParts;
    var q := Accrue(m.pool, now).value;
    var m1 := m.(pool := q);
    DepositAfterAccrual(m, now, l, sum, funds);
    DepositAfterAccrual(m, now, l, amounts[0], amounts[0]);
    assert DepositParts(m, now, l, amounts) == DepositParts(m1, now, l, amounts);
    SteadyDeposit(m1, now, l, sum, funds);
    FloorsOfParts(amounts, q.scaleFactor);
    SteadyParts(m1, now, l, amounts);
  }

  /** Depositing nothing at most lists the lender. */
  lemma ZeroDeposit(m: Market, now: i64, l: Pubkey, amount: u64, funds: u64)
    requires RAY <= m.pool.scaleFactor && Accrue(m.pool, now) == Ok(m.pool)
    requires HandleDeposit(m, now, l, amount, funds).Ok?
    ensures var listed := m.(lenders := m.lenders[l := PositionOf(m, l)]);
            && HandleDeposit(m, now, l, 0, 0) == Ok(listed)
            && HandleDeposit(listed, now, l, amount, funds) == HandleDeposit(m, now, l, amount, funds)
            && HandleDeposit(m, now, l, amount, amount) == HandleDeposit(m, now, l, amount, funds)
  {
    hide Accrue;
    assert SharesFor(0, m.pool.scaleFactor) == Ok(0) by {
      SharesFailExactly(0, m.pool.scaleFactor);
      SharesAreFair(0, m.pool.scaleFactor);
    }
    hide SharesFor;
    var after := HandleDeposit(m, now, l, amount, funds).value;
    assert m.lenders[l := PositionOf(m, l)][l := after.lenders[l]] == m.lenders[l := after.lenders[l]];
  }

  lemma {:induction false} SplitAfterZeros(m: Market, now: i64, l: Pubkey, amounts: seq<u64>, sum: u64, funds: u64)
    requires RAY <= m.pool.scaleFactor && Accrue(m.pool, now) == Ok(m.pool)
    requires amounts != [] && sum == Sum(amounts) && AllButLastZero(amounts)
    requires HandleDeposit(m, now, l, sum, funds).Ok?
    ensures DepositParts(m, now, l, amounts) == HandleDeposit(m, now, l, sum, funds)
    decreases |amounts|
  {
    hide HandleDeposit;
    hide Accrue;
    ZeroDeposit(m, now, l, sum, funds);
    if |amounts| == 1 {
      assert amounts[1..] == [];
      var after := HandleDeposit(m, now, l, sum, sum).value;
      assert DepositParts(after, now, l, []) == Ok(after);
    } else {
      var listed := m.(lenders := m.lenders[l := PositionOf(m, l)]);
      SplitAfterZeros(listed, now, l, amounts[1..], sum, funds);
    }
  }

  lemma DepositMovesClock(m: Market, now: i64, l: Pubkey, amount: u64)
    requires m.pool.lastAccrual <= now && HandleDeposit(m, now, l, amount, amount).Ok?
    ensures Accrue(m.pool, now).Ok?
    ensures var p, p' := m.pool, HandleDeposit(m, now, l, amount, amount).value.pool;
            && p'.lastAccrual == Accrue(p, now).value.lastAccrual <= now
            && p'.totalDeposits == p.totalDeposits + amount && p'.totalBorrows == p.totalBorrows
            && (p.totalDeposits != 0 && p.totalBorrows != 0 ==> p'.lastAccrual == now)
            && (p.totalDeposits == 0 ==> p'.lastAccrual == p.lastAccrual)
  {
    hide SharesFor;
    DepositAccrues(m, now, l, amount, amount);
    AccrualEffect(m.pool, now);
    hide Accrue;
  }

  lemma {:induction false} PartsAccrue(m: Market, now: i64, l: Pubkey, amounts: seq<u64>)
    requires m.pool.lastAccrual <= now && m.pool.totalBorrows != 0
    requires m.pool.lastAccrual == now || (m.pool.totalDeposits != 0 && amounts != []) || !AllButLastZero(amounts)
    requires DepositParts(m, now, l, amounts).Ok?
    ensures DepositParts(m, now, l, amounts).value.pool.lastAccrual == now
    decreases |amounts|
  {
    hide HandleDeposit;
    hide Accrue;
    if amounts == [] {
    } else {
      DepositMovesClock(m, now, l, amounts[0]);
      assert amounts[0] == 0 && !AllButLastZero(amounts) ==> !AllButLastZero(amounts[1..]) by {
        assert forall i :: 0 <= i < |amounts[1..]| ==> amounts[1..][i] == amounts[i + 1];
      }
      PartsAccrue(HandleDeposit(m, now, l, amounts[0], amounts[0]).value, now, l, amounts[1..]);
    }
  }

  /**
   When a deposit goes through, its n parts in turn go through as well and
   end in the same accounts, but for up to n - 1 fewer scaled units. The one
   exception is a pool with loans but no deposits: there the first part that
   is not zero makes the next one accrue.
   */
  lemma SplitDepositExactly(w: World, now: i64, l: Pubkey, amounts: seq<u64>, sum: u64, funds: u64)
    requires Reachable(w) && w.clock <= now
    requires amounts != [] && sum == Sum(amounts)
    requires HandleDeposit(w.market, now, l, sum, funds).Ok?
    ensures var whole, parts := HandleDeposit(w.market, now, l, sum, funds).value,
                                DepositParts(w.market, now, l, amounts);
            parts.Ok? && SameUpToRounding(parts.value, whole, l, |amounts|)
            <==> (EmptiedWithLoans(w.market.pool, now) ==> AllButLastZero(amounts))
  {
    hide HandleDeposit;
    hide DepositParts;
    var m := w.market;
    ReachableInvariant(w);
    DepositAccrues(m, now, l, sum, funds);
    AccrualKeepsExcessCovered(m, w.clock, now);
    if !EmptiedWithLoans(m.pool, now) {
      SplitRegularDeposit(m, now, l, amounts, sum, funds);
    } else {
      ZeroDeposit(m, now, l, sum, funds);
      DepositMovesClock(m, now, l, sum);
      if AllButLastZero(amounts) {
        SplitAfterZeros(m, now, l, amounts, sum, funds);
        DepositEffect(m, now, l, sum, funds);
      } else if DepositParts(m, now, l, amounts).Ok? {
        PartsAccrue(m, now, l, amounts);
      }
    }
  }

  // ----- repaying -----

  /** Tokens a borrower owes at a time: principal plus the interest since the loan was taken, after its cast. */
  function OwedBy(p: BorrowerPosition, now: int): int {
    p.principal + p.principal * p.interestBips * (now - p.borrowedAt) / PERIOD % U64_MODULUS
  }

  lemma RepayOutcome(m: Market, now: i64, agent: Pubkey, funds: u64)
    requires Accrue(m.pool, now).Ok? && agent in m.borrowers
    requires var p := m.borrowers[agent];
             && p.status == Active && p.accruedInterest == 0 && p.lastAccrual == p.borrowedAt <= now
             && p.principal <= Accrue(m.pool, now).value.totalBorrows
    ensures var p, r := m.borrowers[agent], HandleRepay(m, now, agent, funds);
            && (r.Ok? <==> && now - p.borrowedAt <= I64_MAX
                           && p.principal * p.interestBips * (now - p.borrowedAt) < U128_MODULUS
                           && OwedBy(p, now) <= funds && m.vault + OwedBy(p, now) < U64_MODULUS)
            && (r.Ok? ==> r.value.vault == m.vault + OwedBy(p, now))
  {
    hide Accrue;
    hide SimpleInterest;
    var p := m.borrowers[agent];
    if now - p.borrowedAt <= I64_MAX {
      InterestSucceedsExactly(p.principal, p.interestBips, now - p.borrowedAt);
    }
  }

  /** An active loan can be repaid exactly by whoever brings what is owed, unless its interest product overflows. */
  lemma RepaySucceedsExactly(w: World, now: i64, agent: Pubkey, funds: u64)
    requires Reachable(w) && w.clock <= now && Accrue(w.market.pool, now).Ok?
    requires agent in w.market.borrowers && w.market.borrowers[agent].status == Active
    ensures var p, r := w.market.borrowers[agent], Execute(w.market, now, Repay(agent, funds));
            && (r.Ok? <==> && now - p.borrowedAt <= I64_MAX
                           && p.principal * p.interestBips * (now - p.borrowedAt) < U128_MODULUS
                           && OwedBy(p, now) <= funds && w.market.vault + OwedBy(p, now) < U64_MODULUS)
            && (r.Ok? ==> r.value.vault == w.market.vault + OwedBy(p, now))
  {
    hide Accrue;
    hide HandleRepay;
    hide OwedBy;
    var p := w.market.borrowers[agent];
    assert p.accruedInterest == 0 && p.lastAccrual == p.borrowedAt <= now
           && p.principal <= Accrue(w.market.pool, now).value.totalBorrows by {
      ReachableInvariant(w);
      assert LoanSound(p, w.clock);
      AccrualEffect(w.market.pool, now);
      TotalNonNegative(ActivePrincipal(w.market.borrowers));
      assert ActivePrincipal(w.market.borrowers)[agent] == p.principal;
    }
    RepayOutcome(w.market, now, agent, funds);
  }
}
