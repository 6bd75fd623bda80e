/** Over the whole life of a pool: when lenders can take out more than they put in and earned. */
module Lifetime {
  import opened Machine
  import opened Rounding
  import opened Totals
  import opened Lending
  import opened History
  import opened Accruing
  import opened Accounting
  import opened Steps
  import opened Shares

  /** Excess already paid out, and excess still open, together stay within the interest earned. */
  ghost predicate WithinLifetime(w: World) {
    w.book.excessPaid * RAY + Total(Excess(w.market.lenders, w.market.pool.scaleFactor))
    <= w.market.pool.totalInterestEarned * RAY
  }

  /** The program gets to an accrual that books interest, and some was already paid out above deposits. */
  predicate SharesOutAgain(w: World, e: Event) {
    && 0 < w.book.excessPaid
    && !e.ix.TopUp? && Execute(w.market, e.now, e.ix).Ok?
    && w.market.pool.lastAccrual < e.now && 0 < w.market.pool.totalBorrows && 0 < w.market.pool.totalDeposits
  }

  // ----- one step -----

  lemma AccrualKeepsLifetime(w: World, now: i64)
    requires Invariant(w) && w.clock <= now && Accrue(w.market.pool, now).Ok? && WithinLifetime(w)
    requires w.book.excessPaid <= 0 || Accrue(w.market.pool, now).value.lastAccrual == w.market.pool.lastAccrual
    ensures WithinLifetime(AfterAccrual(w, now, Accrue(w.market.pool, now).value))
  {
    AccrualKeepsExcessCovered(w.market, w.clock, now);
    AccrualEffect(w.market.pool, now);
  }

  /** A withdrawal pays no more above the deposit than the position's excess. */
  lemma PayoutWithinExcess(p: LenderPosition, scaleFactor: u128)
    requires RAY <= scaleFactor && PayoutFor(p.scaledDeposit, scaleFactor).Ok?
    ensures (PayoutFor(p.scaledDeposit, scaleFactor).value - p.totalDeposited) * RAY <= ExcessOf(p, scaleFactor)
  {
    EntitlementBounds(p, scaleFactor);
    CastOnlyLowers(Entitlement(p, scaleFactor));
  }

  lemma WithdrawKeepsLifetime(w: World, e: Event)
    requires Invariant(w) && w.clock <= e.now
    requires e.ix.Withdraw? && Execute(w.market, e.now, e.ix).Ok? && Accrue(w.market.pool, e.now).Ok?
    requires WithinLifetime(AfterAccrual(w, e.now, Accrue(w.market.pool, e.now).value))
    ensures WithinLifetime(Step(w, e))
  {
    hide Accrue;
    hide ExcessOf;
    WithdrawEffect(w.market, e);
    AccrualKeepsExcessCovered(w.market, w.clock, e.now);
    var sf, p := Accrue(w.market.pool, e.now).value.scaleFactor, w.market.lenders[e.ix.lender];
    PayoutWithinExcess(p, sf);
    LenderRemoved(w.market.lenders, e.ix.lender, sf);
    var paid := w.market.vault - Step(w, e).market.vault;
    assert Step(w, e).book.excessPaid * RAY == w.book.excessPaid * RAY + (paid - p.totalDeposited) * RAY;
  }

  lemma DepositKeepsLifetime(w: World, e: Event)
    requires Invariant(w) && w.clock <= e.now
    requires e.ix.Deposit? && Execute(w.market, e.now, e.ix).Ok? && Accrue(w.market.pool, e.now).Ok?
    requires WithinLifetime(AfterAccrual(w, e.now, Accrue(w.market.pool, e.now).value))
    ensures WithinLifetime(Step(w, e))
  {
    hide Accrue;
    hide Total;
    hide SharesFor;
    AccrualKeepsExcessCovered(w.market, w.clock, e.now);
    DepositEffect(w.market, e.now, e.ix.lender, e.ix.amount, e.ix.funds);
    LenderWritten(w.market.lenders, e.ix.lender, Step(w, e).market.lenders[e.ix.lender],
                  Accrue(w.market.pool, e.now).value.scaleFactor);
  }

  lemma EffectiveExactly(w: World, e: Event)
    requires w.market.pool.lastAccrual <= e.now && Execute(w.market, e.now, e.ix).Ok? && !e.ix.TopUp?
    ensures Accrue(w.market.pool, e.now).Ok?
    ensures Accrue(w.market.pool, e.now).value.lastAccrual != w.market.pool.lastAccrual
       <==> w.market.pool.lastAccrual < e.now && 0 < w.market.pool.totalBorrows && 0 < w.market.pool.totalDeposits
  {
    hide Accrue;
    InstructionShape(w.market, e);
    AccrualEffect(w.market.pool, e.now);
  }

  /** Every step keeps the lifetime bound, unless it shares interest out again. */
  lemma StepKeepsLifetime(w: World, e: Event)
    requires Invariant(w) && w.clock <= e.now && WithinLifetime(w) && !SharesOutAgain(w, e)
    ensures WithinLifetime(Step(w, e))
  {
    hide Accrue;
    if Execute(w.market, e.now, e.ix).Ok? {
      InstructionShape(w.market, e);
      if !e.ix.TopUp? {
        EffectiveExactly(w, e);
        AccrualKeepsLifetime(w, e.now);
      }
      if e.ix.Deposit? {
        DepositKeepsLifetime(w, e);
      } else if e.ix.Withdraw? {
        WithdrawKeepsLifetime(w, e);
      }
    }
  }

  // ----- runs -----

  /** No step of the run shares out interest that was already paid. */
  predicate NeverSharesOutAgain(w: World, es: seq<Event>)
    decreases |es|
  {
    es == [] || (!SharesOutAgain(w, es[0]) && NeverSharesOutAgain(Step(w, es[0]), es[1..]))
  }

  lemma {:induction false} RunKeepsLifetime(w: World, es: seq<Event>)
    requires Invariant(w) && Chronological(w.clock, es)
    requires WithinLifetime(w) && NeverSharesOutAgain(w, es)
    ensures WithinLifetime(Run(w, es))
    decreases |es|
  {
    if es == [] {
    } else {
      StepKeepsLifetime(w, es[0]);
      StepKeepsInvariant(w, es[0]);
      RunKeepsLifetime(Step(w, es[0]), es[1..]);
    }
  }

  /** Within the lifetime bound, payouts so far and all that is still open fit deposits and interest. */
  lemma LifetimeCoversEntitlements(w: World)
    requires Invariant(w) && WithinLifetime(w)
    ensures w.book.excessPaid + Total(Entitlements(w.market.lenders, w.market.pool.scaleFactor))
         <= w.market.pool.totalDeposits + w.market.pool.totalInterestEarned
  {
    WorthIsNominalAndExcess(w.market, w.clock);
  }

  /**
   From its opening on, a pool pays and owes its lenders at most deposits
   plus interest, as long as no accrual follows a withdrawal above par.
   */
  lemma LifetimePayoutsWithinCredit(m: Market, t0: i64, es: seq<Event>)
    requires Fresh(m, t0) && Chronological(t0, es) && NeverSharesOutAgain(Genesis(m, t0), es)
    ensures var w := Run(Genesis(m, t0), es);
            w.book.excessPaid + Total(Entitlements(w.market.lenders, w.market.pool.scaleFactor))
            <= w.market.pool.totalDeposits + w.market.pool.totalInterestEarned
  {
    GenesisInvariant(m, t0);
    RunKeepsLifetime(Genesis(m, t0), es);
    RunKeepsInvariant(Genesis(m, t0), es);
    LifetimeCoversEntitlements(Run(Genesis(m, t0), es));
  }

  // ----- right after an effective accrual -----

  /** Scaled units a position is short of par. */
  function Shortfall(lenders: map<Pubkey, LenderPosition>): Amounts {
    map l | l in lenders :: lenders[l].totalDeposited - lenders[l].scaledDeposit
  }

  lemma ExcessAboveShare(p: LenderPosition, growth: int)
    requires 0 <= growth
    ensures growth * p.totalDeposited
         <= ExcessOf(p, RAY + growth) + (RAY + growth) * (p.totalDeposited - p.scaledDeposit)
  {
    assert (RAY + growth) * (p.totalDeposited - p.scaledDeposit)
        == RAY * p.totalDeposited + growth * p.totalDeposited - p.scaledDeposit * (RAY + growth);
  }

  /** The whole growth is open excess, up to the shortfall from par. */
  lemma ExcessFromBelow(lenders: map<Pubkey, LenderPosition>, growth: int)
    requires 0 <= growth
    ensures growth * Total(Nominal(lenders))
         <= Total(Excess(lenders, RAY + growth)) + (RAY + growth) * Total(Shortfall(lenders))
  {
    hide ExcessOf;
    hide Total;
    var sf := RAY + growth;
    var grown := map l | l in lenders :: growth * lenders[l].totalDeposited;
    var missing := map l | l in lenders :: sf * (lenders[l].totalDeposited - lenders[l].scaledDeposit);
    var both := map l | l in lenders :: ExcessOf(lenders[l], sf) + missing[l];
    TotalScaled(growth, Nominal(lenders), grown);
    TotalScaled(sf, Shortfall(lenders), missing);
    TotalSum(Excess(lenders, sf), missing, both);
    forall l | l in lenders
      ensures grown[l] <= both[l]
    {
      ExcessAboveShare(lenders[l], growth);
    }
    TotalMonotone(grown, both);
  }

  /**
   After an effective accrual the bound holds when nobody was paid above
   the deposit before, and fails once the excess paid outweighs the distance
   of the open positions from par.
   */
  lemma LifetimeAfterAccrual(w: World, now: i64)
    requires Invariant(w) && w.clock <= now && Accrue(w.market.pool, now).Ok?
    requires Accrue(w.market.pool, now).value.lastAccrual != w.market.pool.lastAccrual
    ensures var w' := AfterAccrual(w, now, Accrue(w.market.pool, now).value);
            var distance := w'.market.pool.scaleFactor * Total(Shortfall(w.market.lenders));
            && (w.book.excessPaid <= 0 ==> WithinLifetime(w'))
            && (w'.market.pool.totalDeposits + distance <= w.book.excessPaid * RAY ==> !WithinLifetime(w'))
  {
    hide Accrue;
    AccrualKeepsExcessCovered(w.market, w.clock, now);
    AccrualEffect(w.market.pool, now);
    var q := Accrue(w.market.pool, now).value;
    var growth := q.totalInterestEarned * RAY / q.totalDeposits;
    FloorBounds(q.totalInterestEarned * RAY, q.totalDeposits);
    FloorAtLeast(q.totalInterestEarned * RAY, q.totalDeposits, 0);
    ExcessFromBelow(w.market.lenders, growth);
    assert growth * q.totalDeposits == q.totalDeposits * growth;
  }

  /** Every open position has as many scaled units as tokens. */
  ghost predicate AllAtPar(m: Market) {
    forall l :: l in m.lenders ==> m.lenders[l].scaledDeposit == m.lenders[l].totalDeposited
  }

  lemma NoShortfallAtPar(m: Market)
    requires AllAtPar(m)
    ensures Total(Shortfall(m.lenders)) == 0
  {
    TotalScaled(0, Nominal(m.lenders), Shortfall(m.lenders));
  }

  /** At par the bound survives an effective accrual exactly if nothing above deposits was paid out before it. */
  lemma LifetimeExactlyAtPar(w: World, now: i64)
    requires Invariant(w) && w.clock <= now && Accrue(w.market.pool, now).Ok?
    requires Accrue(w.market.pool, now).value.lastAccrual != w.market.pool.lastAccrual
    requires AllAtPar(w.market)
    ensures WithinLifetime(AfterAccrual(w, now, Accrue(w.market.pool, now).value)) <==> w.book.excessPaid <= 0
  {
    hide Accrue;
    NoShortfallAtPar(w.market);
    AccrualEffect(w.market.pool, now);
    LifetimeAfterAccrual(w, now);
    var sf := Accrue(w.market.pool, now).value.scaleFactor;
    assert sf * 0 == 0;
  }

  /** With everybody at par, a claim, loan or repayment breaks the bound exactly if it shares interest out again. */
  lemma StepKeepsLifetimeExactly(w: World, e: Event)
    requires Invariant(w) && w.clock <= e.now && WithinLifetime(w) && AllAtPar(w.market)
    requires !e.ix.Deposit? && !e.ix.Withdraw?
    ensures WithinLifetime(Step(w, e)) <==> !SharesOutAgain(w, e)
  {
    hide Accrue;
    if SharesOutAgain(w, e) {
      InstructionShape(w.market, e);
      EffectiveExactly(w, e);
      LifetimeExactlyAtPar(w, e.now);
    } else {
      StepKeepsLifetime(w, e);
    }
  }

  // ----- the same in whole tokens -----

  /** By how many tokens payouts so far and all that is still open exceed deposits and interest. */
  ghost function Overshoot(w: World): int {
    w.book.excessPaid + Total(Entitlements(w.market.lenders, w.market.pool.scaleFactor))
    - w.market.pool.totalDeposits - w.market.pool.totalInterestEarned
  }

  lemma EntitlementsWritten(lenders: map<Pubkey, LenderPosition>, l: Pubkey, p: LenderPosition, scaleFactor: int)
    ensures Total(Entitlements(lenders[l := p], scaleFactor))
         == Total(Entitlements(lenders, scaleFactor))
            - (if l in lenders then Entitlement(lenders[l], scaleFactor) else 0) + Entitlement(p, scaleFactor)
  {
    assert Entitlements(lenders[l := p], scaleFactor)
        == Entitlements(lenders, scaleFactor)[l := Entitlement(p, scaleFactor)];
    TotalUpdate(Entitlements(lenders, scaleFactor), l, Entitlement(p, scaleFactor));
  }

  lemma EntitlementsRemoved(lenders: map<Pubkey, LenderPosition>, l: Pubkey, scaleFactor: int)
    requires l in lenders
    ensures Total(Entitlements(lenders - {l}, scaleFactor))
         == Total(Entitlements(lenders, scaleFactor)) - Entitlement(lenders[l], scaleFactor)
  {
    assert Entitlements(lenders - {l}, scaleFactor) == Entitlements(lenders, scaleFactor) - {l};
    TotalRemove(Entitlements(lenders, scaleFactor), l);
  }

  lemma MoreUnits(units: int, more: int, scaleFactor: int, amount: int)
    requires more * scaleFactor <= amount * RAY
    ensures (units + more) * scaleFactor / RAY <= units * scaleFactor / RAY + amount
  {
    Distribute(scaleFactor, units, more);
    FloorBounds(units * scaleFactor, RAY);
    FloorAtMost((units + more) * scaleFactor, RAY, units * scaleFactor / RAY + amount);
  }

  lemma DepositOvershoot(w: World, e: Event)
    requires Invariant(w) && w.clock <= e.now
    requires e.ix.Deposit? && Execute(w.market, e.now, e.ix).Ok? && Accrue(w.market.pool, e.now).Ok?
    ensures Overshoot(Step(w, e)) <= Overshoot(AfterAccrual(w, e.now, Accrue(w.market.pool, e.now).value))
  {
    hide Accrue;
    hide SharesFor;
    hide Total;
    var m, l, q := w.market, e.ix.lender, Accrue(w.market.pool, e.now).value;
    AccrualKeepsExcessCovered(m, w.clock, e.now);
    DepositEffect(m, e.now, l, e.ix.amount, e.ix.funds);
    SharesAreFair(e.ix.amount, q.scaleFactor);
    EntitlementsWritten(m.lenders, l, Step(w, e).market.lenders[l], q.scaleFactor);
    var before := if l in m.lenders then m.lenders[l] else LenderPosition(0, 0);
    MoreUnits(before.scaledDeposit, SharesFor(e.ix.amount, q.scaleFactor).value, q.scaleFactor, e.ix.amount);
  }

  /** A withdrawal turns open worth into payout, all of it unless the cast cuts the payout. */
  lemma WithdrawOvershoot(w: World, e: Event)
    requires Invariant(w) && w.clock <= e.now
    requires e.ix.Withdraw? && Execute(w.market, e.now, e.ix).Ok? && Accrue(w.market.pool, e.now).Ok?
    ensures e.ix.lender in w.market.lenders
    ensures var after := Overshoot(AfterAccrual(w, e.now, Accrue(w.market.pool, e.now).value));
            var worth := Entitlement(w.market.lenders[e.ix.lender], Accrue(w.market.pool, e.now).value.scaleFactor);
            && Overshoot(Step(w, e)) <= after
            && (worth < U64_MODULUS ==> Overshoot(Step(w, e)) == after)
  {
    hide Accrue;
    hide Total;
    WithdrawEffect(w.market, e);
    AccrualKeepsExcessCovered(w.market, w.clock, e.now);
    var sf, p := Accrue(w.market.pool, e.now).value.scaleFactor, w.market.lenders[e.ix.lender];
    EntitlementsRemoved(w.market.lenders, e.ix.lender, sf);
    EntitlementBounds(p, sf);
    CastOnlyLowers(Entitlement(p, sf));
    PayoutFailsExactly(p, sf);
  }

  /** Apart from its accrual, no step lets the overshoot grow, and only deposits and cut payouts lower it. */
  lemma StepOvershoot(w: World, e: Event)
    requires Invariant(w) && w.clock <= e.now && Execute(w.market, e.now, e.ix).Ok? && !e.ix.TopUp?
    ensures Accrue(w.market.pool, e.now).Ok?
    ensures var q := Accrue(w.market.pool, e.now).value;
            var after := Overshoot(AfterAccrual(w, e.now, q));
            && Overshoot(Step(w, e)) <= after
            && (!e.ix.Deposit?
                && (e.ix.Withdraw? && e.ix.lender in w.market.lenders ==>
                      Entitlement(w.market.lenders[e.ix.lender], q.scaleFactor) < U64_MODULUS)
                ==> Overshoot(Step(w, e)) == after)
  {
    hide Accrue;
    hide Total;
    InstructionShape(w.market, e);
    if e.ix.Deposit? {
      DepositOvershoot(w, e);
    } else if e.ix.Withdraw? {
      WithdrawOvershoot(w, e);
    }
  }

  lemma AccrualWithoutPayout(w: World, now: i64)
    requires Invariant(w) && w.clock <= now && Accrue(w.market.pool, now).Ok? && w.book.excessPaid <= 0
    ensures Overshoot(AfterAccrual(w, now, Accrue(w.market.pool, now).value)) <= 0
  {
    hide Accrue;
    AccrualKeepsInvariant(w, now);
    CoveredEntitlements(w.market.(pool := Accrue(w.market.pool, now).value), now);
  }

  /** Every step keeps payouts and open worth within deposits and interest, unless it shares interest out again. */
  lemma StepKeepsCredit(w: World, e: Event)
    requires Invariant(w) && w.clock <= e.now && Overshoot(w) <= 0 && !SharesOutAgain(w, e)
    ensures Overshoot(Step(w, e)) <= 0
  {
    hide Accrue;
    hide Total;
    if Execute(w.market, e.now, e.ix).Ok? && !e.ix.TopUp? {
      StepOvershoot(w, e);
      EffectiveExactly(w, e);
      if w.book.excessPaid <= 0 {
        AccrualWithoutPayout(w, e.now);
      } else {
        AccrualEffect(w.market.pool, e.now);
      }
    }
  }

  function Units(lenders: map<Pubkey, LenderPosition>): Amounts {
    map l | l in lenders :: lenders[l].scaledDeposit
  }

  lemma LosesUnderOneToken(p: LenderPosition, scaleFactor: int)
    ensures scaleFactor * p.scaledDeposit <= RAY * Entitlement(p, scaleFactor) + (RAY - 1)
  {
    FloorBounds(p.scaledDeposit * scaleFactor, RAY);
  }

  lemma LossesTotal(lenders: map<Pubkey, LenderPosition>, worth: Amounts, both: Amounts)
    requires worth.Keys == both.Keys == lenders.Keys
    requires forall l :: l in lenders ==> both[l] == worth[l] + (RAY - 1)
    ensures Total(both) == Total(worth) + (RAY - 1) * |lenders|
  {
    hide Total;
    var lost := map l | l in lenders :: RAY - 1;
    TotalConstant(RAY - 1, lost);
    assert lost.Keys == lenders.Keys;
    TotalSum(worth, lost, both);
  }

  /** Units are worth their product with the factor, short of under one token for each position. */
  lemma WorthOfUnits(lenders: map<Pubkey, LenderPosition>, scaleFactor: int)
    ensures scaleFactor * Total(Units(lenders))
         <= RAY * Total(Entitlements(lenders, scaleFactor)) + (RAY - 1) * |lenders|
  {
    hide Total;
    hide Entitlement;
    var product := map l | l in lenders :: scaleFactor * lenders[l].scaledDeposit;
    var worth := map l | l in lenders :: RAY * Entitlement(lenders[l], scaleFactor);
    var both := map l | l in lenders :: RAY * Entitlement(lenders[l], scaleFactor) + (RAY - 1);
    TotalScaled(scaleFactor, Units(lenders), product);
    TotalScaled(RAY, Entitlements(lenders, scaleFactor), worth);
    LossesTotal(lenders, worth, both);
    forall l | l in lenders
      ensures product[l] <= both[l]
    {
      LosesUnderOneToken(lenders[l], scaleFactor);
    }
    TotalMonotone(product, both);
  }

  lemma WorthFromBelow(lenders: map<Pubkey, LenderPosition>, scaleFactor: int)
    ensures scaleFactor * (Total(Nominal(lenders)) - Total(Shortfall(lenders)))
         <= RAY * Total(Entitlements(lenders, scaleFactor)) + (RAY - 1) * |lenders|
  {
    TotalSum(Units(lenders), Shortfall(lenders), Nominal(lenders));
    WorthOfUnits(lenders, scaleFactor);
  }

  /** The factor is as high as the interest earned over the deposits allows, up to its own rounding. */
  predicate FactorRecomputed(p: Pool) {
    RAY * (p.totalDeposits + p.totalInterestEarned) - p.totalDeposits < p.scaleFactor * p.totalDeposits
  }

  lemma AccrualRecomputesFactor(p: Pool, now: i64)
    requires p.lastAccrual <= now && Accrue(p, now).Ok? && Accrue(p, now).value.lastAccrual != p.lastAccrual
    ensures FactorRecomputed(Accrue(p, now).value)
  {
    hide Accrue;
    AccrualEffect(p, now);
    var q := Accrue(p, now).value;
    FloorBounds(q.totalInterestEarned * RAY, q.totalDeposits);
    Distribute(q.totalDeposits, RAY, q.totalInterestEarned * RAY / q.totalDeposits);
    assert q.totalDeposits * q.scaleFactor == q.scaleFactor * q.totalDeposits;
  }

  lemma OwedUpToDistance(deposits: int, earned: int, shortfall: int, worth: int, scaleFactor: int, count: int)
    requires RAY * (deposits + earned) - deposits < scaleFactor * deposits
    requires scaleFactor * (deposits - shortfall) <= RAY * worth + (RAY - 1) * count
    ensures RAY * (deposits + earned - worth) < deposits + scaleFactor * shortfall + (RAY - 1) * count
  {
    assert scaleFactor * (deposits - shortfall) == scaleFactor * deposits - scaleFactor * shortfall;
  }

  /** At a recomputed factor, deposits and interest are owed up to the distance from par and the rounding. */
  lemma CreditIsOwed(m: Market, clock: i64)
    requires Consistent(m, clock) && FactorRecomputed(m.pool)
    ensures RAY * (m.pool.totalDeposits + m.pool.totalInterestEarned
                   - Total(Entitlements(m.lenders, m.pool.scaleFactor)))
          < m.pool.totalDeposits + m.pool.scaleFactor * Total(Shortfall(m.lenders)) + (RAY - 1) * |m.lenders|
  {
    hide Total;
    hide Entitlements;
    hide Shortfall;
    WorthFromBelow(m.lenders, m.pool.scaleFactor);
    OwedUpToDistance(m.pool.totalDeposits, m.pool.totalInterestEarned, Total(Shortfall(m.lenders)),
                     Total(Entitlements(m.lenders, m.pool.scaleFactor)), m.pool.scaleFactor, |m.lenders|);
  }

  lemma CreditIsOwedAtPar(m: Market, clock: i64)
    requires Consistent(m, clock) && FactorRecomputed(m.pool) && AllAtPar(m)
    ensures m.pool.totalDeposits + m.pool.totalInterestEarned - |m.lenders|
         <= Total(Entitlements(m.lenders, m.pool.scaleFactor))
  {
    CreditIsOwed(m, clock);
    NoShortfallAtPar(m);
    assert m.pool.scaleFactor * 0 == 0;
  }

  // ----- exactly -----

  /**
   Deposits and interest that no open position will be worth once the factor
   is recomputed from these totals: lost to floors and to units short of par.
   */
  ghost function Unclaimed(lenders: map<Pubkey, LenderPosition>, deposits: int, earned: int): int
    requires 0 < deposits
  {
    deposits + earned - Total(Entitlements(lenders, RAY + earned * RAY / deposits))
  }

  /** What the lenders will have earned once an effective accrual at `now` has gone through. */
  function EarnedAt(p: Pool, now: int): int {
    Earned(p, GrossInterest(p, now - p.lastAccrual))
  }

  lemma UnclaimedIsSmall(m: Market, clock: i64)
    requires Consistent(m, clock) && ExcessCovered(m) && FactorRecomputed(m.pool) && 0 < m.pool.totalDeposits
    requires m.pool.scaleFactor == RAY + m.pool.totalInterestEarned * RAY / m.pool.totalDeposits
    ensures var rest := Unclaimed(m.lenders, m.pool.totalDeposits, m.pool.totalInterestEarned);
            && 0 <= rest
            && RAY * rest < m.pool.totalDeposits + m.pool.scaleFactor * Total(Shortfall(m.lenders))
                            + (RAY - 1) * |m.lenders|
            && (AllAtPar(m) ==> rest <= |m.lenders|)
  {
    hide Total;
    hide Entitlements;
    hide Shortfall;
    hide ExcessOf;
    CoveredEntitlements(m, clock);
    CreditIsOwed(m, clock);
    if AllAtPar(m) {
      CreditIsOwedAtPar(m, clock);
    }
  }

  /**
   Payouts and open worth are within deposits and interest after an effective
   accrual exactly when what was paid above deposits before is at most what
   stays unclaimed: never negative, less than the distance from par and one
   token per position, and at par at most the number of positions.
   */
  lemma OvershootExactly(w: World, now: i64)
    requires Invariant(w) && w.clock <= now && Accrue(w.market.pool, now).Ok?
    requires w.market.pool.lastAccrual < now && 0 < w.market.pool.totalBorrows && 0 < w.market.pool.totalDeposits
    ensures var p, lenders := w.market.pool, w.market.lenders;
            var rest := Unclaimed(lenders, p.totalDeposits, EarnedAt(p, now));
            var factor := RAY + EarnedAt(p, now) * RAY / p.totalDeposits;
            && (Overshoot(AfterAccrual(w, now, Accrue(p, now).value)) <= 0 <==> w.book.excessPaid <= rest)
            && 0 <= rest
            && RAY * rest < p.totalDeposits + factor * Total(Shortfall(lenders)) + (RAY - 1) * |lenders|
            && (AllAtPar(w.market) ==> rest <= |lenders|)
  {
    hide Accrue;
    hide Total;
    hide Entitlements;
    hide Shortfall;
    hide ExcessOf;
    hide GrossInterest;
    AccrualEffect(w.market.pool, now);
    AccrualKeepsInvariant(w, now);
    AccrualRecomputesFactor(w.market.pool, now);
    UnclaimedIsSmall(w.market.(pool := Accrue(w.market.pool, now).value), now);
  }

  /** The same for a whole step: a claim, loan or repayment, or a withdrawal whose payout no cast cuts. */
  lemma StepKeepsCreditExactly(w: World, e: Event)
    requires Invariant(w) && w.clock <= e.now && Overshoot(w) <= 0
    requires !e.ix.Deposit?
    requires e.ix.Withdraw? && e.ix.lender in w.market.lenders && Accrue(w.market.pool, e.now).Ok? ==>
               Entitlement(w.market.lenders[e.ix.lender], Accrue(w.market.pool, e.now).value.scaleFactor) < U64_MODULUS
    ensures Overshoot(Step(w, e)) <= 0
       <==> (SharesOutAgain(w, e) ==>
               w.book.excessPaid <= Unclaimed(w.market.lenders, w.market.pool.totalDeposits,
                                              EarnedAt(w.market.pool, e.now)))
  {
    hide Accrue;
    hide Total;
    hide Execute;
    hide Entitlement;
    hide Unclaimed;
    if SharesOutAgain(w, e) {
      StepOvershoot(w, e);
      OvershootExactly(w, e.now);
    } else {
      StepKeepsCredit(w, e);
    }
  }
}
