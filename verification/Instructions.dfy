/**
 Every instruction decided, in every reachable world: which error it gives,
 and otherwise all it changes. Failures that no run can bring about are gone.
 */
module Instructions {
  import opened Machine
  import opened Totals
  import opened Lending
  import opened History
  import opened Accruing
  import opened Accounting
  import opened Steps
  import opened BalanceSheet
  import opened Shares

  /** Accruing fails in one way only. */
  lemma AccrualError(p: Pool, now: i64)
    ensures Accrue(p, now).Err? ==> Accrue(p, now).error == MathOverflow
  {
  }

  /** The accrued pool of a reachable world, as far as the handlers rely on it. */
  lemma AccruedSoundly(w: World, now: i64)
    requires Reachable(w) && w.clock <= now && Accrue(w.market.pool, now).Ok?
    ensures var q := Accrue(w.market.pool, now).value;
            && RAY <= q.scaleFactor
            && q.totalDeposits == w.market.pool.totalDeposits && q.totalBorrows == w.market.pool.totalBorrows
            && q.hookProgram == w.market.pool.hookProgram
            && (forall l :: l in w.market.lenders ==>
                  w.market.lenders[l].scaledDeposit <= w.market.lenders[l].totalDeposited <= q.totalDeposits)
            && (forall a :: a in w.market.borrowers && w.market.borrowers[a].status == Active ==>
                  && w.market.borrowers[a].principal <= q.totalBorrows
                  && w.market.borrowers[a].accruedInterest == 0
                  && w.market.borrowers[a].lastAccrual == w.market.borrowers[a].borrowedAt <= now)
  {
    ReachableInvariant(w);
    AccrualKeepsExcessCovered(w.market, w.clock, now);
    AccrualEffect(w.market.pool, now);
    TotalNonNegative(Nominal(w.market.lenders));
    TotalNonNegative(ActivePrincipal(w.market.borrowers));
    forall l | l in w.market.lenders
      ensures w.market.lenders[l].totalDeposited <= w.market.pool.totalDeposits
    {
      assert Nominal(w.market.lenders)[l] == w.market.lenders[l].totalDeposited;
    }
    forall a | a in w.market.borrowers && w.market.borrowers[a].status == Active
      ensures w.market.borrowers[a].principal <= w.market.pool.totalBorrows
    {
      assert LoanSound(w.market.borrowers[a], w.clock);
      assert ActivePrincipal(w.market.borrowers)[a] == w.market.borrowers[a].principal;
    }
  }

  lemma DepositDecided(w: World, e: Event)
    requires Reachable(w) && w.clock <= e.now && e.ix.Deposit?
    ensures var m, l, amount, r := w.market, e.ix.lender, e.ix.amount, Execute(w.market, e.now, e.ix);
            if m.pool.depositWindowEnd != 0 && m.pool.depositWindowEnd < e.now then
              r == Err(DepositWindowClosed)
            else if Accrue(m.pool, e.now).Err? || LIMIT < amount then
              r == Err(MathOverflow)
            else if e.ix.funds < amount then
              r == Err(TokenInsufficientFunds)
            else if U64_MODULUS <= m.vault + amount then
              r == Err(TokenOverflow)
            else if U64_MODULUS <= m.pool.totalDeposits + amount then
              r == Err(MathOverflow)
            else
              var q := Accrue(m.pool, e.now).value;
              var before := if l in m.lenders then m.lenders[l] else LenderPosition(0, 0);
              && RAY <= q.scaleFactor
              && before.totalDeposited + amount < U64_MODULUS
              && 0 <= before.scaledDeposit + amount * RAY / q.scaleFactor < U64_MODULUS
              && r == Ok(m.(pool := q.(totalDeposits := m.pool.totalDeposits + amount),
                            vault := m.vault + amount,
                            lenders := m.lenders[l := LenderPosition(
                                         before.totalDeposited + amount,
                                         before.scaledDeposit + amount * RAY / q.scaleFactor)]))
  {
    hide Reachable;
    var m := w.market;
    AccrualError(m.pool, e.now);
    if Accrue(m.pool, e.now).Ok? {
      AccruedSoundly(w, e.now);
      var q := Accrue(m.pool, e.now).value;
      hide Accrue;
      SharesFailExactly(e.ix.amount, q.scaleFactor);
      SharesError(e.ix.amount, q.scaleFactor);
      if e.ix.amount <= LIMIT {
        SharesAreFair(e.ix.amount, q.scaleFactor);
      }
      hide SharesFor;
    }
  }

  lemma SharesError(amount: u64, scaleFactor: u128)
    ensures SharesFor(amount, scaleFactor).Err? ==> SharesFor(amount, scaleFactor).error == MathOverflow
  {
  }

  lemma BorrowDecided(w: World, e: Event)
    requires Reachable(w) && w.clock <= e.now && e.ix.Borrow?
    ensures var m, amount, r := w.market, e.ix.amount, Execute(w.market, e.now, e.ix);
            if e.ix.agent in m.borrowers then
              r == Err(AccountAlreadyInUse)
            else if Accrue(m.pool, e.now).Err? then
              r == Err(MathOverflow)
            else
              var q := Accrue(m.pool, e.now).value;
              var reserves := m.pool.totalDeposits * m.pool.reserveRatioBips / 10_000 % U64_MODULUS;
              if m.vault < reserves + q.accruedProtocolFees + amount then
                r == Err(ReserveRatioBreached)
              else if e.ix.hookProgram != m.pool.hookProgram then
                r == Err(InvalidHookProgram)
              else
                match e.ix.answer
                case CallFailed => r == Err(HookFailed)
                case NoReadableData => r == Err(InvalidHookReturnData)
                case Terms(approved, bips, term) =>
                  if !approved then
                    r == Err(BorrowRejected)
                  else if !(-I64_MAX - 1 <= e.now + term <= I64_MAX) then
                    r == Err(MathOverflow)
                  else if U64_MODULUS <= m.pool.totalBorrows + amount then
                    r == Err(MathOverflow)
                  else
                    r == Ok(m.(pool := q.(totalBorrows := m.pool.totalBorrows + amount),
                               vault := m.vault - amount,
                               borrowers := m.borrowers[e.ix.agent := BorrowerPosition(amount, bips, 0, e.now, e.now,
                                                                                       Active, term, e.now + term)]))
  {
    hide Reachable;
    var m := w.market;
    AccrualError(m.pool, e.now);
    if Accrue(m.pool, e.now).Ok? {
      var q := Accrue(m.pool, e.now).value;
      AccruedSoundly(w, e.now);
      assert q.reserveRatioBips == m.pool.reserveRatioBips;
      hide Accrue;
      ReservesFit(q);
      hide RequiredReserves;
    }
  }

  lemma InterestError(principal: u64, bips: u16, seconds: u128)
    ensures SimpleInterest(principal, bips, seconds).Err? ==>
              SimpleInterest(principal, bips, seconds).error == MathOverflow
  {
  }

  /** The cases of a repayment once the loan's interest is computed. */
  lemma RepaymentCases(m: Market, e: Event, q: Pool, due: Outcome<u128>)
    requires e.ix.Repay? && e.ix.agent in m.borrowers && Accrue(m.pool, e.now) == Ok(q)
    requires var p := m.borrowers[e.ix.agent];
             && p.status == Active && p.accruedInterest == 0 && p.lastAccrual == p.borrowedAt <= e.now
             && e.now - p.borrowedAt <= I64_MAX && p.principal <= q.totalBorrows
             && due == SimpleInterest(p.principal, p.interestBips, e.now - p.borrowedAt)
    requires due.Err? ==> due.error == MathOverflow
    ensures var p, r := m.borrowers[e.ix.agent], Execute(m, e.now, e.ix);
            if due.Err? || U64_MODULUS <= p.principal + due.value % U64_MODULUS then
              r == Err(MathOverflow)
            else
              var interest := due.value % U64_MODULUS;
              if e.ix.funds < p.principal + interest then
                r == Err(TokenInsufficientFunds)
              else if U64_MODULUS <= m.vault + p.principal + interest then
                r == Err(TokenOverflow)
              else
                r == Ok(m.(pool := q.(totalBorrows := q.totalBorrows - p.principal),
                           vault := m.vault + p.principal + interest,
                           borrowers := m.borrowers[e.ix.agent := p.(accruedInterest := interest, lastAccrual := e.now,
                                                                     status := Repaid)]))
  {
    hide Accrue;
    hide SimpleInterest;
  }

  lemma RepaymentDecided(w: World, e: Event)
    requires Reachable(w) && w.clock <= e.now && e.ix.Repay?
    ensures var m, a, r := w.market, e.ix.agent, Execute(w.market, e.now, e.ix);
            if a !in m.borrowers then
              r == Err(AccountNotInitialized)
            else if m.borrowers[a].status == Repaid then
              r == Err(BorrowNotActive)
            else
              var p := m.borrowers[a];
              var product := p.principal * p.interestBips * (e.now - p.borrowedAt);
              var interest := product / (10_000 * 31_536_000) % U64_MODULUS;
              if || Accrue(m.pool, e.now).Err? || I64_MAX < e.now - p.borrowedAt || U128_MODULUS <= product
                 || U64_MODULUS <= p.principal + interest
              then
                r == Err(MathOverflow)
              else if e.ix.funds < p.principal + interest then
                r == Err(TokenInsufficientFunds)
              else if U64_MODULUS <= m.vault + p.principal + interest then
                r == Err(TokenOverflow)
              else
                && p.principal <= m.pool.totalBorrows
                && r == Ok(m.(pool := Accrue(m.pool, e.now).value.(
                                        totalBorrows := m.pool.totalBorrows - p.principal),
                              vault := m.vault + p.principal + interest,
                              borrowers := m.borrowers[a := p.(accruedInterest := interest, lastAccrual := e.now,
                                                               status := Repaid)]))
  {
    hide Reachable;
    var m, a := w.market, e.ix.agent;
    AccrualError(m.pool, e.now);
    if Accrue(m.pool, e.now).Ok? {
      AccruedSoundly(w, e.now);
      hide Accrue;
      if a in m.borrowers && m.borrowers[a].status == Active {
        var p := m.borrowers[a];
        if e.now - p.borrowedAt <= I64_MAX {
          InterestSucceedsExactly(p.principal, p.interestBips, e.now - p.borrowedAt);
          InterestError(p.principal, p.interestBips, e.now - p.borrowedAt);
          RepaymentCases(m, e, Accrue(m.pool, e.now).value,
                         SimpleInterest(p.principal, p.interestBips, e.now - p.borrowedAt));
          hide SimpleInterest;
          hide Execute;
        }
        hide SimpleInterest;
      }
    }
  }

  lemma PayoutError(units: u64, scaleFactor: u128)
    ensures PayoutFor(units, scaleFactor).Err? ==> PayoutFor(units, scaleFactor).error == MathOverflow
  {
  }

  lemma WithdrawalDecided(w: World, e: Event)
    requires Reachable(w) && w.clock <= e.now && e.ix.Withdraw?
    ensures var m, l, r := w.market, e.ix.lender, Execute(w.market, e.now, e.ix);
            if l !in m.lenders then
              r == Err(AccountNotInitialized)
            else if Accrue(m.pool, e.now).Err? then
              r == Err(MathOverflow)
            else
              var q, p := Accrue(m.pool, e.now).value, m.lenders[l];
              var paid := p.scaledDeposit * q.scaleFactor / RAY % U64_MODULUS;
              if U128_MODULUS <= p.scaledDeposit * q.scaleFactor then
                r == Err(MathOverflow)
              else if m.vault < q.accruedProtocolFees + paid then
                r == Err(InsufficientVaultBalance)
              else
                && p.totalDeposited <= m.pool.totalDeposits
                && r == Ok(m.(pool := q.(totalDeposits := m.pool.totalDeposits - p.totalDeposited),
                              vault := m.vault - paid,
                              lenders := m.lenders - {l}))
  {
    hide Reachable;
    var m, l := w.market, e.ix.lender;
    AccrualError(m.pool, e.now);
    if Accrue(m.pool, e.now).Ok? && l in m.lenders {
      AccruedSoundly(w, e.now);
      var q := Accrue(m.pool, e.now).value;
      hide Accrue;
      PayoutFailsExactly(m.lenders[l], q.scaleFactor);
      PayoutError(m.lenders[l].scaledDeposit, q.scaleFactor);
      hide PayoutFor;
    }
  }

  /** With loans open or not: only the recipient claims, all fees accrued by now, exactly when the vault holds them. */
  lemma ClaimDecided(w: World, e: Event)
    requires Reachable(w) && w.clock <= e.now && e.ix.ClaimProtocolFees?
    ensures var m, r := w.market, Execute(w.market, e.now, e.ix);
            if e.ix.signer != m.feeRecipient then
              r == Err(UnauthorizedFeeClaim)
            else if Accrue(m.pool, e.now).Err? then
              r == Err(MathOverflow)
            else
              var q := Accrue(m.pool, e.now).value;
              if m.vault < q.accruedProtocolFees then
                r == Err(TokenInsufficientFunds)
              else
                r == Ok(m.(pool := q.(accruedProtocolFees := 0), vault := m.vault - q.accruedProtocolFees))
  {
    AccrualError(w.market.pool, e.now);
    hide Accrue;
  }

  lemma TopUpDecided(m: Market, e: Event)
    requires e.ix.TopUp?
    ensures Execute(m, e.now, e.ix)
         == if m.vault + e.ix.amount < U64_MODULUS then Ok(m.(vault := m.vault + e.ix.amount)) else Err(TokenOverflow)
  {
  }
}
