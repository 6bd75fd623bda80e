/**
 Runs that show where the program does less than its documentation promises.
 The exact conditions are proved in WindDown, Progress, Shares and Lifetime.
 */
module Witnesses {
  import opened Machine
  import opened Lending
  import opened History
  import opened Steps
  import opened Shares
  import opened Progress

  const YEAR: i64 := 31_536_000

  /** A pool at ten percent, opened at time 0, without reserves or a deposit window. */
  function Opening(hook: Pubkey, recipient: Pubkey): Market {
    HandleInitializePool(0, hook, 1000, YEAR, 0, 0, recipient)
  }

  /** One lender has deposited a million, nothing has been lent. */
  function Funded(hook: Pubkey, recipient: Pubkey, lender: Pubkey): Market {
    Market(Pool(hook, RAY, 0, 0, 1000, 0, 1_000_000, 0, 0, 0, YEAR), 1_000_000,
           map[lender := LenderPosition(1_000_000, 1_000_000)], map[], recipient)
  }

  lemma FundingStep(hook: Pubkey, recipient: Pubkey, lender: Pubkey)
    ensures Execute(Opening(hook, recipient), 0, Deposit(lender, 1_000_000, 1_000_000))
         == Ok(Funded(hook, recipient, lender))
  {
  }

  /** The loan of half the deposits, taken at `at` while the last accrual is still that of time 0. */
  function Lent(hook: Pubkey, recipient: Pubkey, lender: Pubkey, agent: Pubkey, at: i64): Market
    requires 0 <= at <= YEAR
  {
    var before := Funded(hook, recipient, lender);
    before.(pool := before.pool.(totalBorrows := 500_000),
            vault := 500_000,
            borrowers := map[agent := BorrowerPosition(500_000, 1000, 0, at, at, Active, YEAR, at + YEAR)])
  }

  lemma LendingStep(hook: Pubkey, recipient: Pubkey, lender: Pubkey, agent: Pubkey, at: i64)
    requires 0 <= at <= YEAR
    ensures Execute(Funded(hook, recipient, lender), at, Borrow(agent, 500_000, hook, Terms(true, 1000, YEAR)))
         == Ok(Lent(hook, recipient, lender, agent, at))
  {
  }

  lemma OpeningReachable(hook: Pubkey, recipient: Pubkey)
    ensures Reachable(Genesis(Opening(hook, recipient), 0))
  {
    var g := Genesis(Opening(hook, recipient), 0);
    assert Fresh(g.market, 0) && Chronological(0, []) && Run(g, []) == g;
    assert ReachableSince(0, g);
  }

  /** A successful transaction extends a reachable world. */
  lemma Then(w: World, now: i64, ix: Instruction, after: Market)
    requires Reachable(w) && w.clock <= now && Execute(w.market, now, ix) == Ok(after)
    ensures Reachable(Step(w, Event(now, ix)))
    ensures Step(w, Event(now, ix)).market == after && Step(w, Event(now, ix)).clock == now
  {
    ReachableStep(w, Event(now, ix));
  }

  lemma LentReachable(hook: Pubkey, recipient: Pubkey, lender: Pubkey, agent: Pubkey, at: i64)
    requires 0 <= at <= YEAR
    ensures exists w: World ::
              && Reachable(w) && w.clock == at && w.book.excessPaid == 0
              && w.market == Lent(hook, recipient, lender, agent, at)
  {
    var w0 := Genesis(Opening(hook, recipient), 0);
    OpeningReachable(hook, recipient);
    FundingStep(hook, recipient, lender);
    var deposit := Deposit(lender, 1_000_000, 1_000_000);
    Then(w0, 0, deposit, Funded(hook, recipient, lender));
    LendingStep(hook, recipient, lender, agent, at);
    var borrow := Borrow(agent, 500_000, hook, Terms(true, 1000, YEAR));
    Then(Step(w0, Event(0, deposit)), at, borrow, Lent(hook, recipient, lender, agent, at));
  }

  lemma IdleAccrual(p: Pool)
    requires p == Pool(p.hookProgram, RAY, 0, 0, 1000, 0, 1_000_000, 500_000, 0, 0, p.minTermSeconds)
    ensures Accrue(p, YEAR + 1)
         == Ok(p.(totalInterestEarned := 45_000, accruedProtocolFees := 5_000,
                  scaleFactor := 1_045_000_000_000_000_000_000_000_000, lastAccrual := YEAR + 1))
  {
    assert SimpleInterest(500_000, 1000, 31_536_001) == Ok(50_000);
  }

  lemma OneSecondOfInterest()
    ensures SimpleInterest(500_000, 1000, 1) == Ok(0)
  {
  }

  lemma IdleRepayment(hook: Pubkey, recipient: Pubkey, lender: Pubkey, agent: Pubkey)
    ensures var r := Execute(Lent(hook, recipient, lender, agent, YEAR), YEAR + 1, Repay(agent, 500_000));
            && r.Ok?
            && r.value.vault == 1_000_000 && r.value.pool.totalBorrows == 0
            && r.value.pool.accruedProtocolFees == 5_000
            && r.value.pool.scaleFactor == 1_045_000_000_000_000_000_000_000_000
            && r.value.lenders == map[lender := LenderPosition(1_000_000, 1_000_000)]
            && (forall a :: a in r.value.borrowers ==> r.value.borrowers[a].status == Repaid)
  {
    hide Accrue;
    hide SimpleInterest;
    IdleAccrual(Lent(hook, recipient, lender, agent, YEAR).pool);
    OneSecondOfInterest();
  }

  /**
   A pool idle for a year lends for one second. The year is charged to the
   loan, the borrower pays one second's interest, and the lender cannot leave
   although every loan is repaid and nobody has left before.
   */
  lemma IdleYearLocksTheLender(hook: Pubkey, recipient: Pubkey, lender: Pubkey, agent: Pubkey)
    ensures exists w: World ::
              && Reachable(w)
              && lender in w.market.lenders
              && w.market.pool.totalBorrows == 0
              && (forall a :: a in w.market.borrowers ==> w.market.borrowers[a].status == Repaid)
              && (forall now: i64 :: w.clock <= now ==>
                    HandleWithdraw(w.market, now, lender) == Err(InsufficientVaultBalance))
  {
    LentReachable(hook, recipient, lender, agent, YEAR);
    var m := Lent(hook, recipient, lender, agent, YEAR);
    var w: World :| Reachable(w) && w.clock == YEAR && w.market == m;
    IdleRepayment(hook, recipient, lender, agent);
    var after := Execute(m, YEAR + 1, Repay(agent, 500_000)).value;
    Then(w, YEAR + 1, Repay(agent, 500_000), after);
    assert PayoutFor(1_000_000, after.pool.scaleFactor) == Ok(1_045_000);
    var w' := Step(w, Event(YEAR + 1, Repay(agent, 500_000)));
    forall now: i64 | w'.clock <= now
      ensures HandleWithdraw(w'.market, now, lender) == Err(InsufficientVaultBalance)
    {
      assert Accrue(after.pool, now) == Ok(after.pool);
    }
  }

  /** The pool of `Lent` a year later, after one more deposit of a million. */
  function Diluted(p: Pool): Pool {
    p.(totalDeposits := 2_000_000, totalInterestEarned := 45_000, accruedProtocolFees := 5_000,
       scaleFactor := 1_045_000_000_000_000_000_000_000_000, lastAccrual := YEAR)
  }

  lemma YearAccrual(p: Pool)
    requires p == Pool(p.hookProgram, RAY, 0, 0, 1000, 0, 1_000_000, 500_000, 0, 0, p.minTermSeconds)
    ensures Accrue(p, YEAR) == Ok(Diluted(p).(totalDeposits := 1_000_000))
  {
    assert SimpleInterest(500_000, 1000, 31_536_000) == Ok(50_000);
  }

  lemma DilutedShares()
    ensures SharesFor(1_000_000, 1_045_000_000_000_000_000_000_000_000) == Ok(956_937)
  {
  }

  lemma DilutingStep(hook: Pubkey, recipient: Pubkey, lender: Pubkey, agent: Pubkey)
    ensures var r := Execute(Lent(hook, recipient, lender, agent, 0), YEAR, Deposit(lender, 1_000_000, 1_000_000));
            r.Ok? && r.value.pool == Diluted(Lent(hook, recipient, lender, agent, 0).pool)
  {
    hide Accrue;
    hide SharesFor;
    YearAccrual(Lent(hook, recipient, lender, agent, 0).pool);
    DilutedShares();
  }

  lemma DilutedAccrual(p: Pool)
    requires p.totalBorrows == 500_000 && p.minInterestBips == 1000
    ensures Accrue(Diluted(p), YEAR + 1).Ok?
    ensures Accrue(Diluted(p), YEAR + 1).value.scaleFactor == 1_022_500_000_000_000_000_000_000_000
  {
  }

  /** A deposit after interest was earned makes the next accrual lower the scale factor. */
  lemma FactorCanDrop(hook: Pubkey, recipient: Pubkey, lender: Pubkey, agent: Pubkey)
    ensures exists w: World ::
              Reachable(w) && w.clock == YEAR
              && Accrue(w.market.pool, YEAR + 1).Ok?
              && Accrue(w.market.pool, YEAR + 1).value.scaleFactor < w.market.pool.scaleFactor
  {
    LentReachable(hook, recipient, lender, agent, 0);
    var m := Lent(hook, recipient, lender, agent, 0);
    var w: World :| Reachable(w) && w.clock == 0 && w.market == m;
    var deposit := Deposit(lender, 1_000_000, 1_000_000);
    DilutingStep(hook, recipient, lender, agent);
    Then(w, YEAR, deposit, Execute(m, YEAR, deposit).value);
    DilutedAccrual(m.pool);
  }

  /** Two deposits that each go through can leave a position that no withdrawal ever pays out. */
  lemma LargePositionLocked(hook: Pubkey, recipient: Pubkey, lender: Pubkey)
    ensures exists w: World ::
              && Reachable(w)
              && lender in w.market.lenders && LIMIT < w.market.lenders[lender].scaledDeposit
              && w.market.pool.totalBorrows == 0
              && w.market.vault == w.market.pool.totalDeposits
              && (forall now: i64 :: w.clock <= now ==>
                    HandleWithdraw(w.market, now, lender) == Err(MathOverflow))
  {
    var half := 200_000_000_000;
    var w0 := Genesis(Opening(hook, recipient), 0);
    OpeningReachable(hook, recipient);
    var deposit := Deposit(lender, half, half);
    var first := Execute(w0.market, 0, deposit).value;
    assert first.lenders[lender] == LenderPosition(half, half);
    Then(w0, 0, deposit, first);
    var w1 := Step(w0, Event(0, deposit));
    var second := Execute(first, 0, deposit).value;
    assert second.lenders[lender] == LenderPosition(2 * half, 2 * half);
    Then(w1, 0, deposit, second);
    var w2 := Step(w1, Event(0, deposit));
    forall now: i64 | w2.clock <= now
      ensures HandleWithdraw(w2.market, now, lender) == Err(MathOverflow)
    {
      assert Accrue(second.pool, now) == Ok(second.pool);
    }
  }

  /** The pool of `Lent` after a gift of what is lent and the withdrawal of the only lender. */
  function Emptied(hook: Pubkey, recipient: Pubkey, lender: Pubkey, agent: Pubkey): Market {
    var before := Lent(hook, recipient, lender, agent, 0);
    before.(pool := before.pool.(totalDeposits := 0), vault := 0, lenders := map[])
  }

  lemma EmptiedReachable(hook: Pubkey, recipient: Pubkey, lender: Pubkey, agent: Pubkey)
    ensures exists w: World :: Reachable(w) && w.clock == 0 && w.market == Emptied(hook, recipient, lender, agent)
  {
    LentReachable(hook, recipient, lender, agent, 0);
    var m := Lent(hook, recipient, lender, agent, 0);
    var w: World :| Reachable(w) && w.clock == 0 && w.market == m;
    var gifted := m.(vault := 1_000_000);
    Then(w, 0, TopUp(500_000), gifted);
    var w1 := Step(w, Event(0, TopUp(500_000)));
    assert Accrue(gifted.pool, 0) == Ok(gifted.pool);
    assert PayoutFor(1_000_000, RAY) == Ok(1_000_000);
    assert gifted.lenders - {lender} == map[];
    Then(w1, 0, Withdraw(lender), Emptied(hook, recipient, lender, agent));
  }

  /** In a pool with a loan but no deposits, two deposits do not do the same as one of their sum. */
  lemma SplittingCanMatter(hook: Pubkey, recipient: Pubkey, lender: Pubkey, agent: Pubkey)
    ensures exists w: World ::
              && Reachable(w) && w.clock <= YEAR
              && HandleDeposit(w.market, YEAR, lender, 2_000_000, 2_000_000).Ok?
              && !(&& DepositParts(w.market, YEAR, lender, [1_000_000, 1_000_000]).Ok?
                   && SameUpToRounding(DepositParts(w.market, YEAR, lender, [1_000_000, 1_000_000]).value,
                                       HandleDeposit(w.market, YEAR, lender, 2_000_000, 2_000_000).value, lender, 2))
  {
    EmptiedReachable(hook, recipient, lender, agent);
    var m := Emptied(hook, recipient, lender, agent);
    var w: World :| Reachable(w) && w.clock == 0 && w.market == m;
    assert Accrue(m.pool, YEAR) == Ok(m.pool);
    assert SharesFor(2_000_000, RAY) == Ok(2_000_000);
    var amounts: seq<u64> := [1_000_000, 1_000_000];
    assert Sum(amounts) == 2_000_000 by {
      assert amounts[1..] == [1_000_000] && amounts[1..][1..] == [];
    }
    assert !AllButLastZero(amounts) by {
      assert amounts[0] != 0;
    }
    SplitDepositExactly(w, YEAR, lender, amounts, 2_000_000, 2_000_000);
  }

  /** A pool that lends out the whole of one large deposit at time 0. */
  function LentOut(hook: Pubkey, recipient: Pubkey, lender: Pubkey, agent: Pubkey): Market {
    Market(Pool(hook, RAY, 0, 0, 1000, 0, 300_000_000_000, 300_000_000_000, 0, 0, YEAR), 0,
           map[lender := LenderPosition(300_000_000_000, 300_000_000_000)],
           map[agent := BorrowerPosition(300_000_000_000, 1000, 0, 0, 0, Active, 13 * YEAR, 13 * YEAR)], recipient)
  }

  lemma LentOutReachable(hook: Pubkey, recipient: Pubkey, lender: Pubkey, agent: Pubkey)
    ensures exists w: World ::
              Reachable(w) && w.clock == 0 && w.market == LentOut(hook, recipient, lender, agent)
  {
    var amount := 300_000_000_000;
    var w0 := Genesis(Opening(hook, recipient), 0);
    OpeningReachable(hook, recipient);
    var deposit := Deposit(lender, amount, amount);
    var funded := Market(Pool(hook, RAY, 0, 0, 1000, 0, amount, 0, 0, 0, YEAR), amount,
                         map[lender := LenderPosition(amount, amount)], map[], recipient);
    assert Execute(w0.market, 0, deposit) == Ok(funded);
    Then(w0, 0, deposit, funded);
    var borrow := Borrow(agent, amount, hook, Terms(true, 1000, 13 * YEAR));
    assert Execute(funded, 0, borrow) == Ok(LentOut(hook, recipient, lender, agent));
    Then(Step(w0, Event(0, deposit)), 0, borrow, LentOut(hook, recipient, lender, agent));
  }

  /** Ten percent a year on the loan. */
  lemma InterestOfYears(p: Pool, years: int)
    requires p.totalBorrows == 300_000_000_000 && p.minInterestBips == 1000
    ensures GrossInterest(p, years * YEAR) == years * 30_000_000_000
  {
    assert p.totalBorrows * p.minInterestBips * (years * YEAR) == PERIOD * (years * 30_000_000_000);
  }

  /**
   A loan of all the deposits, left alone for thirteen years, freezes the
   pool: for the next million years neither it nor the deposit can be paid
   back, whatever is tried.
   */
  lemma LongLoanFreezesThePool(hook: Pubkey, recipient: Pubkey, lender: Pubkey, agent: Pubkey)
    ensures exists w: World ::
              && Reachable(w) && lender in w.market.lenders
              && agent in w.market.borrowers && w.market.borrowers[agent].status == Active
              && (forall es :: Chronological(w.clock, es) && Run(w, es).clock <= 1_000_000 * YEAR ==>
                    Run(w, es).market == w.market.(vault := Run(w, es).market.vault))
  {
    hide Accrue;
    LentOutReachable(hook, recipient, lender, agent);
    var m := LentOut(hook, recipient, lender, agent);
    var w0: World :| Reachable(w0) && w0.clock == 0 && w0.market == m;
    InterestOfYears(m.pool, 13);
    InterestOfYears(m.pool, 1_000_000);
    PastLimitCannotAccrue(m.pool, 13 * YEAR);
    var e := Event(13 * YEAR, ClaimProtocolFees(recipient));
    FrozenStep(w0, e);
    ReachableStep(w0, e);
    var w := Step(w0, e);
    forall es | Chronological(w.clock, es) && Run(w, es).clock <= 1_000_000 * YEAR
      ensures Run(w, es).market == w.market.(vault := Run(w, es).market.vault)
    {
      RunKeepsClock(w, es);
      GrossMonotone(m.pool, Run(w, es).clock, 1_000_000 * YEAR);
      FrozenForGood(w, es);
    }
  }

  /** Two lenders with a million each, half a million lent to an agent at time 0. */
  function Shared(hook: Pubkey, recipient: Pubkey, first: Pubkey, second: Pubkey, agent: Pubkey): Market {
    var before := Lent(hook, recipient, first, agent, 0);
    before.(pool := before.pool.(totalDeposits := 2_000_000),
            vault := 1_500_000,
            lenders := map[first := LenderPosition(1_000_000, 1_000_000),
                           second := LenderPosition(1_000_000, 1_000_000)])
  }

  lemma SharedReachable(hook: Pubkey, recipient: Pubkey, first: Pubkey, second: Pubkey, agent: Pubkey)
    requires first != second
    ensures exists w: World ::
              && Reachable(w) && w.clock == 0 && w.book.excessPaid == 0
              && w.market == Shared(hook, recipient, first, second, agent)
  {
    LentReachable(hook, recipient, first, agent, 0);
    var m := Lent(hook, recipient, first, agent, 0);
    var w: World :| Reachable(w) && w.clock == 0 && w.book.excessPaid == 0 && w.market == m;
    var deposit := Deposit(second, 1_000_000, 1_000_000);
    assert Accrue(m.pool, 0) == Ok(m.pool);
    assert SharesFor(1_000_000, RAY) == Ok(1_000_000);
    var after := Execute(m, 0, deposit).value;
    assert after.lenders == Shared(hook, recipient, first, second, agent).lenders;
    Then(w, 0, deposit, Shared(hook, recipient, first, second, agent));
  }

  /** The pool of `Shared` a year later. */
  function Grown(p: Pool): Pool {
    p.(totalInterestEarned := 45_000, accruedProtocolFees := 5_000,
       scaleFactor := 1_022_500_000_000_000_000_000_000_000, lastAccrual := YEAR)
  }

  lemma SharedYear(p: Pool)
    requires p == Pool(p.hookProgram, RAY, 0, 0, 1000, 0, 2_000_000, 500_000, 0, 0, p.minTermSeconds)
    ensures Accrue(p, YEAR) == Ok(Grown(p))
  {
    assert SimpleInterest(500_000, 1000, 31_536_000) == Ok(50_000);
  }

  lemma SharedPayout()
    ensures PayoutFor(1_000_000, 1_022_500_000_000_000_000_000_000_000) == Ok(1_022_500)
  {
  }

  lemma FirstLeaves(hook: Pubkey, recipient: Pubkey, first: Pubkey, second: Pubkey, agent: Pubkey)
    requires first != second
    ensures var m := Shared(hook, recipient, first, second, agent);
            Execute(m, YEAR, Withdraw(first))
            == Ok(m.(pool := Grown(m.pool).(totalDeposits := 1_000_000), vault := 477_500,
                     lenders := map[second := LenderPosition(1_000_000, 1_000_000)]))
  {
    hide Accrue;
    hide PayoutFor;
    var m := Shared(hook, recipient, first, second, agent);
    SharedYear(m.pool);
    SharedPayout();
    assert m.lenders - {first} == map[second := LenderPosition(1_000_000, 1_000_000)];
  }

  /** After a lender has left with a share of the interest, the same interest is shared out again among the rest. */
  lemma RegrownAccrual(p: Pool)
    requires p.totalDeposits == 1_000_000 && p.totalBorrows == 500_000 && p.minInterestBips == 1000
    requires p.totalInterestEarned == 45_000 && p.accruedProtocolFees == 5_000 && p.lastAccrual == YEAR
    ensures Accrue(p, YEAR + 1)
         == Ok(p.(scaleFactor := 1_045_000_000_000_000_000_000_000_000, lastAccrual := YEAR + 1))
  {
  }

  /**
   Over the life of a pool, what lenders have been paid and are still worth
   can exceed all their deposits and all the interest they earned: the excess
   already paid out is not taken off the interest shared out later.
   */
  lemma LifetimePayoutsCanExceedCredit(hook: Pubkey, recipient: Pubkey, first: Pubkey, second: Pubkey, agent: Pubkey)
    requires first != second
    ensures exists w: World ::
              && Reachable(w) && second in w.market.lenders
              && w.market.pool.totalDeposits + w.market.pool.totalInterestEarned
                 < w.book.excessPaid + Entitlement(w.market.lenders[second], w.market.pool.scaleFactor)
  {
    SharedReachable(hook, recipient, first, second, agent);
    var m := Shared(hook, recipient, first, second, agent);
    var w: World :| Reachable(w) && w.clock == 0 && w.book.excessPaid == 0 && w.market == m;
    FirstLeaves(hook, recipient, first, second, agent);
    var left := Execute(m, YEAR, Withdraw(first)).value;
    Then(w, YEAR, Withdraw(first), left);
    var w1 := Step(w, Event(YEAR, Withdraw(first)));
    assert w1.book.excessPaid == 22_500;
    RegrownAccrual(left.pool);
    var regrown := left.(pool := left.pool.(scaleFactor := 1_045_000_000_000_000_000_000_000_000,
                                            lastAccrual := YEAR + 1, accruedProtocolFees := 0),
                         vault := 472_500);
    assert Execute(left, YEAR + 1, ClaimProtocolFees(recipient)) == Ok(regrown);
    Then(w1, YEAR + 1, ClaimProtocolFees(recipient), regrown);
    assert Entitlement(LenderPosition(1_000_000, 1_000_000), 1_045_000_000_000_000_000_000_000_000) == 1_045_000;
  }
}
