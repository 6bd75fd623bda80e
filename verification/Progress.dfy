/** What only moves one way along a run: the factor between deposits, a pool that cannot accrue, a loan's life. */
module Progress {
  import opened Machine
  import opened Rounding
  import opened Totals
  import opened Lending
  import opened History
  import opened Accruing
  import opened Accounting
  import opened Steps
  import opened Shares

  // ----- the scale factor -----

  /** The scale factor promises no more than the interest earned over the current deposits. */
  ghost predicate FactorCurrent(p: Pool) {
    (p.scaleFactor - RAY) * p.totalDeposits <= p.totalInterestEarned * RAY
  }

  /**
   An effective accrual lowers the scale factor exactly when the factor had
   promised more than all interest, with what is now booked, over the deposits.
   */
  lemma AccrualLowersFactorExactly(p: Pool, now: i64)
    requires p.lastAccrual < now && 0 < p.totalBorrows && 0 < p.totalDeposits
    requires Accrue(p, now).Ok?
    ensures var gross := GrossInterest(p, now - p.lastAccrual);
            Accrue(p, now).value.scaleFactor < p.scaleFactor
            <==> (p.totalInterestEarned + LenderShare(gross) % U64_MODULUS) * RAY
                 < (p.scaleFactor - RAY) * p.totalDeposits
  {
    AccrualEffect(p, now);
    FactorComparison(p, Accrue(p, now).value);
  }

  lemma FactorComparison(p: Pool, q: Pool)
    requires 0 < p.totalDeposits
    requires q.scaleFactor == RAY + q.totalInterestEarned * RAY / p.totalDeposits
    ensures q.scaleFactor < p.scaleFactor
            <==> q.totalInterestEarned * RAY < (p.scaleFactor - RAY) * p.totalDeposits
    ensures FactorCurrent(q.(totalDeposits := p.totalDeposits))
  {
    var growth := q.totalInterestEarned * RAY / p.totalDeposits;
    FloorBounds(q.totalInterestEarned * RAY, p.totalDeposits);
    assert p.totalDeposits * (p.scaleFactor - RAY) == (p.scaleFactor - RAY) * p.totalDeposits;
    if p.scaleFactor - RAY <= growth {
      ProductMonotone(p.totalDeposits, p.scaleFactor - RAY, growth);
    } else {
      ProductMonotone(p.totalDeposits, growth + 1, p.scaleFactor - RAY);
      Distribute(p.totalDeposits, growth, 1);
    }
  }

  /** Every effective accrual leaves the scale factor current. */
  lemma EffectiveAccrualIsCurrent(p: Pool, now: i64)
    requires p.lastAccrual < now && 0 < p.totalBorrows && 0 < p.totalDeposits
    requires Accrue(p, now).Ok?
    ensures FactorCurrent(Accrue(p, now).value)
  {
  }

  lemma AccrualKeepsFactor(p: Pool, now: i64)
    requires p.lastAccrual <= now && FactorCurrent(p) && RAY <= p.scaleFactor
    requires Accrue(p, now).Ok?
    ensures p.scaleFactor <= Accrue(p, now).value.scaleFactor
    ensures FactorCurrent(Accrue(p, now).value)
  {
    AccrualEffect(p, now);
    var q := Accrue(p, now).value;
    if q.lastAccrual != p.lastAccrual {
      ProductMonotone(RAY, p.totalInterestEarned, q.totalInterestEarned);
      FactorComparison(p, q);
    }
  }

  predicate DepositSucceeds(w: World, e: Event) {
    e.ix.Deposit? && Execute(w.market, e.now, e.ix).Ok?
  }

  lemma StepKeepsFactor(w: World, e: Event)
    requires Invariant(w) && w.clock <= e.now && !DepositSucceeds(w, e)
    requires FactorCurrent(w.market.pool)
    ensures w.market.pool.scaleFactor <= Step(w, e).market.pool.scaleFactor
    ensures FactorCurrent(Step(w, e).market.pool)
    ensures Step(w, e).market.lenders.Keys <= w.market.lenders.Keys
    ensures forall l :: l in Step(w, e).market.lenders ==> Step(w, e).market.lenders[l] == w.market.lenders[l]
  {
    hide Accrue;
    hide Total;
    if Execute(w.market, e.now, e.ix).Ok? {
      InstructionShape(w.market, e);
      if !e.ix.TopUp? {
        AccrualKeepsFactor(w.market.pool, e.now);
      }
      if e.ix.Withdraw? {
        WithdrawEffect(w.market, e);
        var q, after := Accrue(w.market.pool, e.now).value, Step(w, e).market.pool;
        ProductMonotone(q.scaleFactor - RAY, after.totalDeposits, q.totalDeposits);
      }
    }
  }

  /** No deposit of the run goes through. */
  predicate NoDeposit(w: World, es: seq<Event>)
    decreases |es|
  {
    es == [] || (!DepositSucceeds(w, es[0]) && NoDeposit(Step(w, es[0]), es[1..]))
  }

  /** Along a run without deposits, the scale factor and the worth of every open position never go down. */
  lemma {:induction false} FactorNeverDrops(w: World, es: seq<Event>)
    requires Invariant(w) && Chronological(w.clock, es) && NoDeposit(w, es)
    requires FactorCurrent(w.market.pool)
    ensures w.market.pool.scaleFactor <= Run(w, es).market.pool.scaleFactor
    ensures FactorCurrent(Run(w, es).market.pool)
    ensures Run(w, es).market.lenders.Keys <= w.market.lenders.Keys
    ensures forall l :: l in Run(w, es).market.lenders ==>
              && Run(w, es).market.lenders[l] == w.market.lenders[l]
              && Entitlement(w.market.lenders[l], w.market.pool.scaleFactor)
                 <= Entitlement(Run(w, es).market.lenders[l], Run(w, es).market.pool.scaleFactor)
    decreases |es|
  {
    if es == [] {
    } else {
      StepKeepsFactor(w, es[0]);
      StepKeepsInvariant(w, es[0]);
      FactorNeverDrops(Step(w, es[0]), es[1..]);
    }
    forall l | l in Run(w, es).market.lenders
      ensures Entitlement(w.market.lenders[l], w.market.pool.scaleFactor)
           <= Entitlement(w.market.lenders[l], Run(w, es).market.pool.scaleFactor)
    {
      var units := w.market.lenders[l].scaledDeposit;
      ProductMonotone(units, w.market.pool.scaleFactor, Run(w, es).market.pool.scaleFactor);
      FloorMonotone(units * w.market.pool.scaleFactor, units * Run(w, es).market.pool.scaleFactor, RAY);
    }
  }

  /** A step with an effective accrual, other than a deposit, leaves the scale factor current. */
  lemma EffectiveStepIsCurrent(w: World, e: Event)
    requires Invariant(w) && w.clock <= e.now && !DepositSucceeds(w, e)
    requires Step(w, e).market.pool.lastAccrual != w.market.pool.lastAccrual
    ensures FactorCurrent(Step(w, e).market.pool)
  {
    hide Accrue;
    hide Total;
    InstructionShape(w.market, e);
    AccrualEffect(w.market.pool, e.now);
    EffectiveAccrualIsCurrent(w.market.pool, e.now);
    if e.ix.Withdraw? {
      WithdrawEffect(w.market, e);
      AccrualKeepsExcessCovered(w.market, w.clock, e.now);
      var q, after := Accrue(w.market.pool, e.now).value, Step(w, e).market.pool;
      ProductMonotone(q.scaleFactor - RAY, after.totalDeposits, q.totalDeposits);
    }
  }

  /** From any effective accrual on, until the next deposit, no open position loses worth. */
  lemma WorthNeverDropsAfterAccrual(w: World, e: Event, es: seq<Event>)
    requires Invariant(w) && w.clock <= e.now && !DepositSucceeds(w, e)
    requires Step(w, e).market.pool.lastAccrual != w.market.pool.lastAccrual
    requires Chronological(e.now, es) && NoDeposit(Step(w, e), es)
    ensures var from, to := Step(w, e).market, Run(Step(w, e), es).market;
            && from.pool.scaleFactor <= to.pool.scaleFactor
            && to.lenders.Keys <= from.lenders.Keys
            && (forall l :: l in to.lenders ==>
                  && to.lenders[l] == from.lenders[l]
                  && Entitlement(from.lenders[l], from.pool.scaleFactor)
                     <= Entitlement(to.lenders[l], to.pool.scaleFactor))
  {
    StepKeepsInvariant(w, e);
    EffectiveStepIsCurrent(w, e);
    FactorNeverDrops(Step(w, e), es);
  }

  /** After the deposit window has closed, no run contains a successful deposit. */
  lemma {:induction false} ClosedWindowStopsDeposits(w: World, es: seq<Event>)
    requires Invariant(w) && Chronological(w.clock, es)
    requires w.market.pool.depositWindowEnd != 0
    requires es != [] ==> w.market.pool.depositWindowEnd < es[0].now
    ensures NoDeposit(w, es)
    decreases |es|
  {
    if es == [] {
    } else {
      var e, next := es[0], Step(w, es[0]);
      StepKeepsInvariant(w, e);
      if Execute(w.market, e.now, e.ix).Ok? {
        InstructionShape(w.market, e);
        if !e.ix.TopUp? {
          AccrualEffect(w.market.pool, e.now);
        }
      }
      assert next.market.pool.depositWindowEnd == w.market.pool.depositWindowEnd;
      ClosedWindowStopsDeposits(next, es[1..]);
    }
  }

  // ----- a pool that can no longer accrue -----

  lemma GrossMonotone(p: Pool, x: int, y: int)
    requires 0 <= x <= y
    ensures 0 <= GrossInterest(p, x) <= GrossInterest(p, y)
  {
    var rate := p.totalBorrows * p.minInterestBips;
    ProductNonNegative(p.totalBorrows, p.minInterestBips);
    ProductNonNegative(rate, x);
    ProductMonotone(rate, x, y);
    FloorAtLeast(rate * x, PERIOD, 0);
    FloorMonotone(rate * x, rate * y, PERIOD);
  }

  /** What does not fit stays too large when the interest booked grows. */
  lemma CreditStaysTooLarge(p: Pool, less: int, more: int)
    requires 0 <= less <= more < U64_MODULUS && p.totalDeposits != 0 && !CreditFits(p, less)
    ensures !CreditFits(p, more)
  {
    CastKeepsSmall(less);
    CastKeepsSmall(more);
    ProductMonotone(RAY, Earned(p, less), Earned(p, more));
    FloorMonotone(Earned(p, less) * RAY, Earned(p, more) * RAY, p.totalDeposits);
  }

  /** An accrual that fails keeps failing, at least until its interest outgrows 64 bits and is cut by a cast. */
  lemma AccrualKeepsFailing(p: Pool, now: i64, later: i64)
    requires p.lastAccrual <= now <= later
    requires Accrue(p, now).Err?
    requires GrossInterest(p, later - p.lastAccrual) < U64_MODULUS
    ensures Accrue(p, later).Err?
  {
    hide Accrue;
    hide CreditFits;
    hide GrossInterest;
    AccrueSucceedsExactly(p, now);
    AccrueSucceedsExactly(p, later);
    if Accrue(p, later).Ok? {
      GrossMonotone(p, now - p.lastAccrual, later - p.lastAccrual);
      ProductNonNegative(p.totalBorrows, p.minInterestBips);
      ProductMonotone(p.totalBorrows * p.minInterestBips, now - p.lastAccrual, later - p.lastAccrual);
      CreditStaysTooLarge(p, GrossInterest(p, now - p.lastAccrual), GrossInterest(p, later - p.lastAccrual));
      assert false;
    }
  }

  /** Interest past LIMIT, booked and pending, makes every accrual fail. */
  lemma PastLimitCannotAccrue(p: Pool, now: i64)
    requires p.lastAccrual < now && 0 < p.totalBorrows && 0 < p.totalDeposits
    requires GrossInterest(p, now - p.lastAccrual) < U64_MODULUS
    requires LIMIT < p.totalInterestEarned + LenderShare(GrossInterest(p, now - p.lastAccrual))
    ensures Accrue(p, now).Err?
  {
    hide Accrue;
    AccrueSucceedsExactly(p, now);
    GrossMonotone(p, 0, now - p.lastAccrual);
    CastKeepsSmall(GrossInterest(p, now - p.lastAccrual));
  }

  /** Without accrual an instruction fails, or it is a transfer into the vault. */
  lemma FrozenStep(w: World, e: Event)
    requires Accrue(w.market.pool, e.now).Err?
    ensures Step(w, e).market == w.market.(vault := Step(w, e).market.vault)
    ensures !e.ix.TopUp? ==> Execute(w.market, e.now, e.ix).Err?
  {
    hide Accrue;
    if Execute(w.market, e.now, e.ix).Ok? {
      InstructionShape(w.market, e);
      TopUpEffect(w, e);
    }
  }

  /**
   Once an accrual fails, the pool is frozen: no later run, whatever it
   tries, changes anything but the vault, which still takes gifts. This lasts
   while the interest of the whole wait fits 64 bits.
   */
  lemma {:induction false} FrozenForGood(w: World, es: seq<Event>)
    requires w.market.pool.lastAccrual <= w.clock && Chronological(w.clock, es)
    requires Accrue(w.market.pool, w.clock).Err?
    requires GrossInterest(w.market.pool, Run(w, es).clock - w.market.pool.lastAccrual) < U64_MODULUS
    ensures w.clock <= Run(w, es).clock
    ensures Run(w, es).market == w.market.(vault := Run(w, es).market.vault)
    ensures forall ix: Instruction :: !ix.TopUp? ==> Execute(Run(w, es).market, Run(w, es).clock, ix).Err?
    decreases |es|
  {
    hide Accrue;
    hide Execute;
    hide GrossInterest;
    if es == [] {
      forall ix: Instruction | !ix.TopUp?
        ensures Execute(w.market, w.clock, ix).Err?
      {
        FrozenStep(w, Event(w.clock, ix));
      }
    } else {
      var next := Step(w, es[0]);
      RunKeepsClock(next, es[1..]);
      GrossMonotone(w.market.pool, es[0].now - w.market.pool.lastAccrual,
                    Run(w, es).clock - w.market.pool.lastAccrual);
      AccrualKeepsFailing(w.market.pool, w.clock, es[0].now);
      FrozenStep(w, es[0]);
      FrozenForGood(next, es[1..]);
    }
  }

  lemma {:induction false} RunKeepsClock(w: World, es: seq<Event>)
    requires Chronological(w.clock, es)
    ensures w.clock <= Run(w, es).clock
    decreases |es|
  {
    if es == [] {
    } else {
      RunKeepsClock(Step(w, es[0]), es[1..]);
    }
  }

  // ----- the life of a loan -----

  /** 0 before an agent's only loan, 1 while it is active, 2 once it is repaid. */
  function Phase(m: Market, agent: Pubkey): int {
    if agent !in m.borrowers then 0 else if m.borrowers[agent].status == Active then 1 else 2
  }

  lemma StepMovesLoanForward(w: World, e: Event, agent: Pubkey)
    requires Invariant(w) && w.clock <= e.now
    ensures Phase(w.market, agent) <= Phase(Step(w, e).market, agent) <= Phase(w.market, agent) + 1
    ensures agent in w.market.borrowers ==>
              var p, p' := w.market.borrowers[agent], Step(w, e).market.borrowers[agent];
              && p'.principal == p.principal && p'.interestBips == p.interestBips && p'.borrowedAt == p.borrowedAt
              && p'.termSeconds == p.termSeconds && p'.maturity == p.maturity
              && (p.status == Repaid ==> p' == p)
    ensures Phase(w.market, agent) < Phase(Step(w, e).market, agent) ==>
              if Phase(w.market, agent) == 0 then e.ix.Borrow? && e.ix.agent == agent
              else e.ix.Repay? && e.ix.agent == agent
  {
    if Execute(w.market, e.now, e.ix).Ok? {
      InstructionShape(w.market, e);
      if e.ix.Borrow? {
        BorrowEffect(w.market, e);
      } else if e.ix.Repay? {
        assert LoanSound(w.market.borrowers[e.ix.agent], w.clock);
        RepayEffect(w.market, e);
      }
    }
  }

  /** An agent's loan goes from absent to active to repaid, never back, and its terms never change. */
  lemma {:induction false} LoansMoveForward(w: World, es: seq<Event>, agent: Pubkey)
    requires Invariant(w) && Chronological(w.clock, es)
    ensures Phase(w.market, agent) <= Phase(Run(w, es).market, agent)
    ensures agent in w.market.borrowers ==>
              var p, p' := w.market.borrowers[agent], Run(w, es).market.borrowers[agent];
              && p'.principal == p.principal && p'.interestBips == p.interestBips && p'.borrowedAt == p.borrowedAt
              && p'.termSeconds == p.termSeconds && p'.maturity == p.maturity
              && (p.status == Repaid ==> p' == p)
    decreases |es|
  {
    if es == [] {
    } else {
      StepMovesLoanForward(w, es[0], agent);
      StepKeepsInvariant(w, es[0]);
      LoansMoveForward(Step(w, es[0]), es[1..], agent);
    }
  }

  /** The aggregate subtractions of repay and withdraw never fail. */
  lemma SubtractionsNeverFail(w: World, now: i64)
    requires Reachable(w) && w.clock <= now && Accrue(w.market.pool, now).Ok?
    ensures forall a :: a in w.market.borrowers && w.market.borrowers[a].status == Active ==>
              Sub64(Accrue(w.market.pool, now).value.totalBorrows, w.market.borrowers[a].principal).Ok?
    ensures forall l :: l in w.market.lenders ==>
              Sub64(Accrue(w.market.pool, now).value.totalDeposits, w.market.lenders[l].totalDeposited).Ok?
  {
    ReachableInvariant(w);
    AccrualEffect(w.market.pool, now);
    TotalNonNegative(ActivePrincipal(w.market.borrowers));
    TotalNonNegative(Nominal(w.market.lenders));
    forall a | a in w.market.borrowers && w.market.borrowers[a].status == Active
      ensures w.market.borrowers[a].principal <= w.market.pool.totalBorrows
    {
      assert ActivePrincipal(w.market.borrowers)[a] == w.market.borrowers[a].principal;
    }
    forall l | l in w.market.lenders
      ensures w.market.lenders[l].totalDeposited <= w.market.pool.totalDeposits
    {
      assert Nominal(w.market.lenders)[l] == w.market.lenders[l].totalDeposited;
    }
  }
}
