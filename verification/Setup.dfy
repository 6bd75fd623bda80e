/** What the arguments of initialize_pool mean for every later run of the pool. */
module Setup {
  import opened Machine
  import opened Lending
  import opened History
  import opened Accruing
  import opened Accounting
  import opened Steps
  import opened Instructions

  /** The arguments of initialize_pool, and the fee recipient of the protocol. */
  datatype Terms = Terms(
    hookProgram: Pubkey,
    interestBips: u16,
    termSeconds: i64,
    reserveRatioBips: u16,
    depositWindowEnd: i64,
    feeRecipient: Pubkey)

  function Initialized(t: Terms, now: i64): Market {
    HandleInitializePool(now, t.hookProgram, t.interestBips, t.termSeconds, t.reserveRatioBips, t.depositWindowEnd,
                         t.feeRecipient)
  }

  /** The pool carries these terms. */
  predicate HasTerms(m: Market, t: Terms) {
    && m.pool.hookProgram == t.hookProgram
    && m.pool.minInterestBips == t.interestBips
    && m.pool.minTermSeconds == t.termSeconds
    && m.pool.reserveRatioBips == t.reserveRatioBips
    && m.pool.depositWindowEnd == t.depositWindowEnd
    && m.feeRecipient == t.feeRecipient
  }

  lemma StepKeepsTerms(w: World, e: Event, t: Terms)
    requires Invariant(w) && w.clock <= e.now && HasTerms(w.market, t)
    ensures HasTerms(Step(w, e).market, t)
  {
    hide Accrue;
    if Execute(w.market, e.now, e.ix).Ok? {
      InstructionShape(w.market, e);
      if !e.ix.TopUp? {
        AccrualEffect(w.market.pool, e.now);
      }
    }
  }

  lemma {:induction false} RunKeepsTerms(w: World, es: seq<Event>, t: Terms)
    requires Invariant(w) && Chronological(w.clock, es) && HasTerms(w.market, t)
    ensures HasTerms(Run(w, es).market, t)
    decreases |es|
  {
    if es == [] {
    } else {
      StepKeepsTerms(w, es[0], t);
      StepKeepsInvariant(w, es[0]);
      RunKeepsTerms(Step(w, es[0]), es[1..], t);
    }
  }

  /** The initializer makes a pool without a past, and every run of it keeps the terms it was given. */
  lemma InitializedPoolKeepsItsTerms(t: Terms, t0: i64, es: seq<Event>)
    requires Chronological(t0, es)
    ensures Fresh(Initialized(t, t0), t0)
    ensures Reachable(Run(Genesis(Initialized(t, t0), t0), es))
    ensures var m := Run(Genesis(Initialized(t, t0), t0), es).market;
            && m.pool.hookProgram == t.hookProgram
            && m.pool.minInterestBips == t.interestBips
            && m.pool.minTermSeconds == t.termSeconds
            && m.pool.reserveRatioBips == t.reserveRatioBips
            && m.pool.depositWindowEnd == t.depositWindowEnd
            && m.feeRecipient == t.feeRecipient
  {
    var m := Initialized(t, t0);
    GenesisInvariant(m, t0);
    RunKeepsTerms(Genesis(m, t0), es, t);
    assert ReachableSince(t0, Run(Genesis(m, t0), es));
  }

  /** What an accrual at the given rate books for the lenders. */
  lemma TermsPriceInterest(w: World, e: Event, t: Terms)
    requires Reachable(w) && w.clock <= e.now && HasTerms(w.market, t) && Execute(w.market, e.now, e.ix).Ok?
    ensures var p, p' := w.market.pool, Execute(w.market, e.now, e.ix).value.pool;
            var gross := p.totalBorrows * t.interestBips * (p'.lastAccrual - p.lastAccrual) / (10_000 * 31_536_000);
            p'.totalInterestEarned == p.totalInterestEarned + (gross - gross / 10) % U64_MODULUS
  {
    hide Accrue;
    hide Execute;
    hide Reachable;
    assert w.market.pool.lastAccrual <= e.now by {
      ReachableInvariant(w);
    }
    InstructionShape(w.market, e);
    if e.ix.TopUp? {
      InterestOfNoTime(w.market.pool.totalBorrows, t.interestBips);
    } else {
      AccrualEffect(w.market.pool, e.now);
    }
  }

  /** What the other terms allow. */
  lemma TermsBind(w: World, e: Event, t: Terms)
    requires Reachable(w) && w.clock <= e.now && HasTerms(w.market, t) && Execute(w.market, e.now, e.ix).Ok?
    ensures var after := Execute(w.market, e.now, e.ix).value;
            && (e.ix.Deposit? ==> t.depositWindowEnd == 0 || e.now <= t.depositWindowEnd)
            && (e.ix.Borrow? ==>
                  && e.ix.hookProgram == t.hookProgram
                  && after.pool.totalDeposits * t.reserveRatioBips / 10_000 % U64_MODULUS
                     + after.pool.accruedProtocolFees <= after.vault)
            && (e.ix.ClaimProtocolFees? ==> e.ix.signer == t.feeRecipient)
  {
    hide Accrue;
    hide Reachable;
    hide Execute;
    if e.ix.Deposit? {
      DepositDecided(w, e);
    } else if e.ix.Borrow? {
      BorrowDecided(w, e);
      assert Accrue(w.market.pool, e.now).Ok?;
      AccruedSoundly(w, e.now);
    } else if e.ix.ClaimProtocolFees? {
      ClaimDecided(w, e);
    }
  }

  /**
   After any run of an initialized pool, what a successful instruction may do
   is set by the initializer's arguments: the window closes deposits, the
   ratio holds back reserves, the hook program decides loans, the rate prices
   what an accrual books, and the fees go to the recipient alone.
   */
  lemma InitializedPoolObeysItsTerms(t: Terms, t0: i64, es: seq<Event>, e: Event)
    requires Chronological(t0, es) && Run(Genesis(Initialized(t, t0), t0), es).clock <= e.now
    requires Execute(Run(Genesis(Initialized(t, t0), t0), es).market, e.now, e.ix).Ok?
    ensures var m := Run(Genesis(Initialized(t, t0), t0), es).market;
            var after := Execute(m, e.now, e.ix).value;
            && (e.ix.Deposit? ==> t.depositWindowEnd == 0 || e.now <= t.depositWindowEnd)
            && (e.ix.Borrow? ==>
                  && e.ix.hookProgram == t.hookProgram
                  && after.pool.totalDeposits * t.reserveRatioBips / 10_000 % U64_MODULUS
                     + after.pool.accruedProtocolFees <= after.vault)
            && (e.ix.ClaimProtocolFees? ==> e.ix.signer == t.feeRecipient)
            && var gross := m.pool.totalBorrows * t.interestBips * (after.pool.lastAccrual - m.pool.lastAccrual)
                            / (10_000 * 31_536_000);
            after.pool.totalInterestEarned == m.pool.totalInterestEarned + (gross - gross / 10) % U64_MODULUS
  {
    hide Execute;
    hide Reachable;
    var w := Run(Genesis(Initialized(t, t0), t0), es);
    InitializedPoolKeepsItsTerms(t, t0, es);
    TermsPriceInterest(w, e, t);
    TermsBind(w, e, t);
  }
}
