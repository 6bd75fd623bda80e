/** Every step of every run keeps the invariant. */
module Steps {
  import opened Machine
  import opened Rounding
  import opened Totals
  import opened Lending
  import opened History
  import opened Accruing
  import opened Accounting

  // ----- how the totals move -----

  lemma LenderWritten(lenders: map<Pubkey, LenderPosition>, l: Pubkey, p: LenderPosition, scaleFactor: int)
    ensures Total(Nominal(lenders[l := p]))
         == Total(Nominal(lenders)) - (if l in lenders then lenders[l].totalDeposited else 0) + p.totalDeposited
    ensures Total(Excess(lenders[l := p], scaleFactor))
         == Total(Excess(lenders, scaleFactor))
            - (if l in lenders then ExcessOf(lenders[l], scaleFactor) else 0) + ExcessOf(p, scaleFactor)
  {
    assert Nominal(lenders[l := p]) == Nominal(lenders)[l := p.totalDeposited];
    TotalUpdate(Nominal(lenders), l, p.totalDeposited);
    assert Excess(lenders[l := p], scaleFactor) == Excess(lenders, scaleFactor)[l := ExcessOf(p, scaleFactor)];
    TotalUpdate(Excess(lenders, scaleFactor), l, ExcessOf(p, scaleFactor));
  }

  lemma LenderRemoved(lenders: map<Pubkey, LenderPosition>, l: Pubkey, scaleFactor: int)
    requires l in lenders
    ensures Total(Nominal(lenders - {l})) == Total(Nominal(lenders)) - lenders[l].totalDeposited
    ensures Total(Excess(lenders - {l}, scaleFactor))
         == Total(Excess(lenders, scaleFactor)) - ExcessOf(lenders[l], scaleFactor)
  {
    assert Nominal(lenders - {l}) == Nominal(lenders) - {l};
    TotalRemove(Nominal(lenders), l);
    assert Excess(lenders - {l}, scaleFactor) == Excess(lenders, scaleFactor) - {l};
    TotalRemove(Excess(lenders, scaleFactor), l);
  }

  lemma LoanWritten(borrowers: map<Pubkey, BorrowerPosition>, a: Pubkey, p: BorrowerPosition, clock: int)
    ensures var had := a in borrowers; var before := if had then borrowers[a] else p;
            && Total(ActivePrincipal(borrowers[a := p]))
               == Total(ActivePrincipal(borrowers)) - (if had then PrincipalOf(before) else 0) + PrincipalOf(p)
            && Total(InterestPaid(borrowers[a := p]))
               == Total(InterestPaid(borrowers)) - (if had then before.accruedInterest else 0) + p.accruedInterest
            && Total(LoanSeconds(borrowers[a := p], clock))
               == Total(LoanSeconds(borrowers, clock)) - (if had then SecondsOf(before, clock) else 0)
                  + SecondsOf(p, clock)
  {
    assert ActivePrincipal(borrowers[a := p]) == ActivePrincipal(borrowers)[a := PrincipalOf(p)];
    TotalUpdate(ActivePrincipal(borrowers), a, PrincipalOf(p));
    assert InterestPaid(borrowers[a := p]) == InterestPaid(borrowers)[a := p.accruedInterest];
    TotalUpdate(InterestPaid(borrowers), a, p.accruedInterest);
    assert LoanSeconds(borrowers[a := p], clock) == LoanSeconds(borrowers, clock)[a := SecondsOf(p, clock)];
    TotalUpdate(LoanSeconds(borrowers, clock), a, SecondsOf(p, clock));
  }

  /** As time passes, loan seconds grow by the active principal per second. */
  lemma LoansAge(borrowers: map<Pubkey, BorrowerPosition>, from: int, to: int)
    ensures Total(LoanSeconds(borrowers, to))
         == Total(LoanSeconds(borrowers, from)) + (to - from) * Total(ActivePrincipal(borrowers))
  {
    var growth := map a | a in borrowers :: (to - from) * PrincipalOf(borrowers[a]);
    TotalScaled(to - from, ActivePrincipal(borrowers), growth);
    forall a | a in borrowers
      ensures SecondsOf(borrowers[a], to) == SecondsOf(borrowers[a], from) + growth[a]
    {
      Aging(borrowers[a], from, to);
    }
    TotalSum(LoanSeconds(borrowers, from), growth, LoanSeconds(borrowers, to));
  }

  lemma Aging(p: BorrowerPosition, from: int, to: int)
    ensures SecondsOf(p, to) == SecondsOf(p, from) + (to - from) * PrincipalOf(p)
  {
  }

  // ----- time -----

  lemma ElapsedGrows(b: int, last: int, from: int, to: int)
    ensures b * (to - last) == b * (from - last) + (to - from) * b
  {
  }

  lemma TimeKeepsSecondsConserved(w: World, now: i64)
    requires Consistent(w.market, w.clock) && SecondsConserved(w)
    ensures SecondsConserved(w.(clock := now))
  {
    var b := w.market.pool.totalBorrows;
    LoansAge(w.market.borrowers, w.clock, now);
    ElapsedGrows(b, w.market.pool.lastAccrual, w.clock, now);
  }

  lemma TimePasses(w: World, now: i64)
    requires Invariant(w) && w.clock <= now
    ensures Invariant(w.(clock := now))
  {
    TimeKeepsSecondsConserved(w, now);
    assert InterestRounded(w.(clock := now));
  }

  // ----- accrual -----

  function AfterAccrual(w: World, now: i64, q: Pool): World {
    World(w.market.(pool := q), now, RecordAccrual(w.book, w.market.pool, q.lastAccrual))
  }

  /** Valued at the recomputed scale factor, nobody's excess is above the share of the interest earned. */
  lemma ExcessBelowShare(p: LenderPosition, growth: int)
    requires 0 <= growth && p.scaledDeposit <= p.totalDeposited
    ensures ExcessOf(p, RAY + growth) <= growth * p.totalDeposited
  {
  }

  lemma RecomputedExcessCovered(lenders: map<Pubkey, LenderPosition>, deposits: int, earned: int)
    requires deposits == Total(Nominal(lenders)) && 0 < deposits && 0 <= earned
    requires forall l :: l in lenders ==> lenders[l].scaledDeposit <= lenders[l].totalDeposited
    ensures Total(Excess(lenders, RAY + earned * RAY / deposits)) <= earned * RAY
  {
    var growth := earned * RAY / deposits;
    FloorBounds(earned * RAY, deposits);
    FloorAtLeast(earned * RAY, deposits, 0);
    var shares := map l | l in lenders :: growth * lenders[l].totalDeposited;
    TotalScaled(growth, Nominal(lenders), shares);
    forall l | l in lenders
      ensures ExcessOf(lenders[l], RAY + growth) <= shares[l]
    {
      ExcessBelowShare(lenders[l], growth);
    }
    TotalMonotone(Excess(lenders, RAY + growth), shares);
  }

  lemma AccrualKeepsExcessCovered(m: Market, clock: i64, now: i64)
    requires Consistent(m, clock) && ExcessCovered(m) && clock <= now
    requires Accrue(m.pool, now).Ok?
    ensures Accrue(m.pool, now).value.scaleFactor >= RAY
    ensures ExcessCovered(m.(pool := Accrue(m.pool, now).value))
  {
    var q := Accrue(m.pool, now).value;
    AccrualEffect(m.pool, now);
    if q.lastAccrual != m.pool.lastAccrual {
      RecomputedExcessCovered(m.lenders, m.pool.totalDeposits, q.totalInterestEarned);
      FloorAtLeast(q.totalInterestEarned * RAY, m.pool.totalDeposits, 0);
    }
  }

  /** The share credited to lenders is at least nine times the share credited as fees. */
  lemma SplitNineToOne(gross: int)
    requires 0 <= gross
    ensures 0 <= gross / 10 && 9 * (gross / 10) <= gross - gross / 10
  {
  }

  lemma CastOnlyLowers(x: int)
    requires 0 <= x
    ensures 0 <= x % U64_MODULUS <= x
  {
  }

  /** One more accrual keeps the booked interest within one unit per accrual of the exact product. */
  lemma GrossStaysRounded(b: Book, p: Pool, last: i64)
    requires PERIOD * b.gross <= p.minInterestBips * b.poolSeconds
    requires p.minInterestBips * b.poolSeconds <= PERIOD * b.gross + (PERIOD - 1) * b.accruals
    ensures var b' := RecordAccrual(b, p, last);
            && PERIOD * b'.gross <= p.minInterestBips * b'.poolSeconds
            && p.minInterestBips * b'.poolSeconds <= PERIOD * b'.gross + (PERIOD - 1) * b'.accruals
  {
    var seconds := last - p.lastAccrual;
    var product := p.totalBorrows * p.minInterestBips * seconds;
    assert p.minInterestBips * (b.poolSeconds + p.totalBorrows * seconds)
        == p.minInterestBips * b.poolSeconds + product by {
      Distribute(p.minInterestBips, b.poolSeconds, p.totalBorrows * seconds);
      assert p.minInterestBips * (p.totalBorrows * seconds) == product;
    }
    if seconds == 0 {
      assert product == 0;
    } else {
      FloorBounds(product, PERIOD);
    }
  }

  lemma AccrualKeepsInterestRounded(w: World, now: i64)
    requires w.market.pool.lastAccrual <= now && InterestRounded(w)
    requires Accrue(w.market.pool, now).Ok?
    ensures InterestRounded(AfterAccrual(w, now, Accrue(w.market.pool, now).value))
  {
    hide Accrue;
    hide GrossInterest;
    var p, q := w.market.pool, Accrue(w.market.pool, now).value;
    AccrualEffect(p, now);
    GrossStaysRounded(w.book, p, q.lastAccrual);
    var gross := GrossInterest(p, q.lastAccrual - p.lastAccrual);
    SplitNineToOne(gross);
    CastOnlyLowers(gross - gross / 10);
    CastOnlyLowers(gross / 10);
  }

  lemma AccrualKeepsSeconds(w: World, now: i64)
    requires Consistent(w.market, w.clock) && SecondsConserved(w) && w.clock <= now
    requires Accrue(w.market.pool, now).Ok?
    ensures SecondsConserved(AfterAccrual(w, now, Accrue(w.market.pool, now).value))
  {
    hide Accrue;
    hide GrossInterest;
    hide Total;
    var p, q := w.market.pool, Accrue(w.market.pool, now).value;
    AccrualEffect(p, now);
    TimeKeepsSecondsConserved(w, now);
    Distribute(p.totalBorrows, q.lastAccrual - p.lastAccrual, now - q.lastAccrual);
  }

  lemma AccrualKeepsPositions(m: Market, clock: i64, now: i64)
    requires Consistent(m, clock) && clock <= now
    requires Accrue(m.pool, now).Ok? && RAY <= Accrue(m.pool, now).value.scaleFactor
    ensures Consistent(m.(pool := Accrue(m.pool, now).value), now)
  {
  }

  lemma AccrualKeepsInvariant(w: World, now: i64)
    requires Invariant(w) && w.clock <= now
    requires Accrue(w.market.pool, now).Ok?
    ensures Invariant(AfterAccrual(w, now, Accrue(w.market.pool, now).value))
  {
    hide Accrue;
    hide GrossInterest;
    hide Consistent;
    hide ExcessCovered;
    hide InterestRounded;
    hide SecondsConserved;
    assert w.market.pool.lastAccrual <= now by {
      ClockAhead(w.market, w.clock);
    }
    AccrualEffect(w.market.pool, now);
    AccrualKeepsExcessCovered(w.market, w.clock, now);
    AccrualKeepsPositions(w.market, w.clock, now);
    AccrualKeepsInterestRounded(w, now);
    AccrualKeepsSeconds(w, now);
  }

  lemma ClockAhead(m: Market, clock: i64)
    requires Consistent(m, clock)
    ensures m.pool.lastAccrual <= clock
  {
  }

  // ----- the handlers -----

  /** Scaled units bought are worth at most what was paid for them, and at most one unit's rounding less. */
  lemma SharesAreFair(amount: u64, scaleFactor: u128)
    requires RAY <= scaleFactor && SharesFor(amount, scaleFactor).Ok?
    ensures var shares := SharesFor(amount, scaleFactor).value;
            && amount * RAY < U128_MODULUS
            && shares == amount * RAY / scaleFactor
            && shares <= amount
            && shares * scaleFactor <= amount * RAY <= shares * scaleFactor + scaleFactor - 1
  {
    var quotient := amount * RAY / scaleFactor;
    FloorBounds(amount * RAY, scaleFactor);
    FloorAtLeast(amount * RAY, scaleFactor, 0);
    if amount < quotient {
      ProductMonotone(scaleFactor, amount + 1, quotient);
      ProductMonotone(amount, RAY, scaleFactor);
      Distribute(scaleFactor, amount, 1);
      assert false;
    }
  }

  lemma DepositAddsNoExcess(p: LenderPosition, amount: u64, shares: u64, scaleFactor: int, after: LenderPosition)
    requires shares * scaleFactor <= amount * RAY
    requires after.totalDeposited == p.totalDeposited + amount
    requires after.scaledDeposit == p.scaledDeposit + shares
    ensures ExcessOf(after, scaleFactor) <= ExcessOf(p, scaleFactor)
  {
  }

  lemma DepositEffect(m: Market, now: i64, lender: Pubkey, amount: u64, funds: u64)
    requires HandleDeposit(m, now, lender, amount, funds).Ok?
    requires Accrue(m.pool, now).Ok? ==> RAY <= Accrue(m.pool, now).value.scaleFactor
    ensures Accrue(m.pool, now).Ok?
    ensures var q := Accrue(m.pool, now).value;
            var before := if lender in m.lenders then m.lenders[lender] else LenderPosition(0, 0);
            && SharesFor(amount, q.scaleFactor).Ok?
            && var shares := SharesFor(amount, q.scaleFactor).value;
            var after := HandleDeposit(m, now, lender, amount, funds).value;
            && lender in after.lenders
            && after == m.(pool := q.(totalDeposits := q.totalDeposits + amount),
                           vault := m.vault + amount,
                           lenders := m.lenders[lender := after.lenders[lender]])
            && after.lenders[lender].totalDeposited == before.totalDeposited + amount
            && after.lenders[lender].scaledDeposit == before.scaledDeposit + shares
            && shares <= amount
            && ExcessOf(after.lenders[lender], q.scaleFactor) <= ExcessOf(before, q.scaleFactor)
  {
    var q := Accrue(m.pool, now).value;
    var before := if lender in m.lenders then m.lenders[lender] else LenderPosition(0, 0);
    SharesAreFair(amount, q.scaleFactor);
    var after := HandleDeposit(m, now, lender, amount, funds).value;
    DepositAddsNoExcess(before, amount, SharesFor(amount, q.scaleFactor).value, q.scaleFactor, after.lenders[lender]);
  }

  /** Changes on the lenders' side leave loans and booked interest alone. */
  lemma LendersApart(w: World, w': World)
    requires w'.clock == w.clock && w'.market.borrowers == w.market.borrowers
    requires w'.book == w.book.(excessPaid := w'.book.excessPaid)
    requires w'.market.pool == w.market.pool.(totalDeposits := w'.market.pool.totalDeposits)
    ensures SecondsConserved(w) ==> SecondsConserved(w')
    ensures InterestRounded(w) ==> InterestRounded(w')
  {
  }

  lemma DepositKeepsPositions(m: Market, clock: i64, lender: Pubkey, amount: u64, after: Market)
    requires Consistent(m, clock)
    requires lender in after.lenders
    requires after == m.(pool := m.pool.(totalDeposits := after.pool.totalDeposits), vault := after.vault,
                         lenders := m.lenders[lender := after.lenders[lender]])
    requires after.pool.totalDeposits == m.pool.totalDeposits + amount
    requires var before := if lender in m.lenders then m.lenders[lender] else LenderPosition(0, 0);
             && after.lenders[lender].totalDeposited == before.totalDeposited + amount
             && after.lenders[lender].scaledDeposit <= before.scaledDeposit + amount
    ensures Consistent(after, clock)
  {
    LenderWritten(m.lenders, lender, after.lenders[lender], m.pool.scaleFactor);
  }

  lemma DepositKeepsExcessCovered(m: Market, lender: Pubkey, after: Market)
    requires ExcessCovered(m)
    requires lender in after.lenders && after.lenders == m.lenders[lender := after.lenders[lender]]
    requires after.pool.scaleFactor == m.pool.scaleFactor
    requires after.pool.totalInterestEarned == m.pool.totalInterestEarned
    requires ExcessOf(after.lenders[lender], m.pool.scaleFactor)
             <= if lender in m.lenders then ExcessOf(m.lenders[lender], m.pool.scaleFactor) else 0
    ensures ExcessCovered(after)
  {
    LenderWritten(m.lenders, lender, after.lenders[lender], m.pool.scaleFactor);
  }

  lemma DepositKeepsInvariant(w: World, e: Event)
    requires Invariant(w) && w.clock <= e.now
    requires e.ix.Deposit? && Execute(w.market, e.now, e.ix).Ok?
    ensures Invariant(Step(w, e))
  {
    var Deposit(lender, amount, funds) := e.ix;
    AccrualKeepsInvariant(w, e.now);
    DepositEffect(w.market, e.now, lender, amount, funds);
    var w1 := AfterAccrual(w, e.now, Accrue(w.market.pool, e.now).value);
    var after := Execute(w.market, e.now, e.ix).value;
    DepositKeepsPositions(w1.market, e.now, lender, amount, after);
    assert ExcessOf(LenderPosition(0, 0), w1.market.pool.scaleFactor) == 0;
    DepositKeepsExcessCovered(w1.market, lender, after);
    LendersApart(w1, World(after, e.now, w1.book));
  }

  lemma BorrowEffect(m: Market, e: Event)
    requires e.ix.Borrow? && Execute(m, e.now, e.ix).Ok?
    ensures e.ix.agent !in m.borrowers && Accrue(m.pool, e.now).Ok? && e.ix.answer.Terms?
    ensures AddI64(e.now, e.ix.answer.termSeconds).Ok?
    ensures var q := Accrue(m.pool, e.now).value;
            && e.ix.amount <= m.vault
            && q.totalBorrows + e.ix.amount < U64_MODULUS
            && Execute(m, e.now, e.ix).value
               == m.(pool := q.(totalBorrows := q.totalBorrows + e.ix.amount),
                     vault := m.vault - e.ix.amount,
                     borrowers := m.borrowers[e.ix.agent := NewLoan(e)])
  {
  }

  function NewLoan(e: Event): BorrowerPosition
    requires e.ix.Borrow? && e.ix.answer.Terms? && AddI64(e.now, e.ix.answer.termSeconds).Ok?
  {
    BorrowerPosition(e.ix.amount, e.ix.answer.interestBips, 0, e.now, e.now, Active, e.ix.answer.termSeconds,
                     e.now + e.ix.answer.termSeconds)
  }

  /** Changes on the loan side leave the lenders' shares alone. */
  lemma LoansApart(w: World, w': World)
    requires w'.market.lenders == w.market.lenders
    requires w'.market.pool == w.market.pool.(totalBorrows := w'.market.pool.totalBorrows)
    requires w'.book == w.book.(idleSeconds := w'.book.idleSeconds, residueSeconds := w'.book.residueSeconds)
    requires w.book.idleSeconds <= w'.book.idleSeconds && w.book.residueSeconds <= w'.book.residueSeconds
    ensures ExcessCovered(w.market) ==> ExcessCovered(w'.market)
    ensures InterestRounded(w) ==> InterestRounded(w')
  {
  }

  /** Writing one sound loan keeps the aggregates sums over the positions. */
  lemma LoanKeepsPositions(m: Market, clock: i64, a: Pubkey, p: BorrowerPosition, after: Market)
    requires Consistent(m, clock) && LoanSound(p, clock)
    requires after == m.(pool := m.pool.(totalBorrows := after.pool.totalBorrows), vault := after.vault,
                         borrowers := m.borrowers[a := p])
    requires after.pool.totalBorrows
          == m.pool.totalBorrows - (if a in m.borrowers then PrincipalOf(m.borrowers[a]) else 0) + PrincipalOf(p)
    ensures Consistent(after, clock)
  {
    LoanWritten(m.borrowers, a, p, clock);
  }

  lemma NoSecondsYet(p: BorrowerPosition, clock: int)
    requires p.status == Active && p.borrowedAt == clock
    ensures SecondsOf(p, clock) == 0
  {
  }

  lemma MoreBorrowed(borrows: int, amount: int, seconds: int)
    ensures (borrows + amount) * seconds == borrows * seconds + amount * seconds
  {
  }

  lemma BorrowKeepsSeconds(w: World, a: Pubkey, p: BorrowerPosition, after: World)
    requires SecondsConserved(w)
    requires a !in w.market.borrowers && p.status == Active && p.borrowedAt == w.clock == after.clock
    requires after.market.borrowers == w.market.borrowers[a := p]
    requires after.market.pool == w.market.pool.(totalBorrows := after.market.pool.totalBorrows)
    requires after.market.pool.totalBorrows == w.market.pool.totalBorrows + p.principal
    requires after.book == w.book.(idleSeconds := w.book.idleSeconds
                                                  + p.principal * (w.clock - w.market.pool.lastAccrual))
    ensures SecondsConserved(after)
  {
    LoanWritten(w.market.borrowers, a, p, w.clock);
    NoSecondsYet(p, w.clock);
    MoreBorrowed(w.market.pool.totalBorrows, p.principal, w.clock - w.market.pool.lastAccrual);
  }

  lemma BorrowKeepsInvariant(w: World, e: Event)
    requires Invariant(w) && w.clock <= e.now
    requires e.ix.Borrow? && Execute(w.market, e.now, e.ix).Ok?
    ensures Invariant(Step(w, e))
  {
    hide Accrue;
    hide GrossInterest;
    hide Total;
    AccrualKeepsInvariant(w, e.now);
    BorrowEffect(w.market, e);
    var w1 := AfterAccrual(w, e.now, Accrue(w.market.pool, e.now).value);
    var w2 := Step(w, e);
    var loan := NewLoan(e);
    LoanKeepsPositions(w1.market, e.now, e.ix.agent, loan, w2.market);
    ProductNonNegative(e.ix.amount, e.now - w1.market.pool.lastAccrual);
    LoansApart(w1, w2);
    LoanWritten(w.market.borrowers, e.ix.agent, loan, e.now);
    BorrowKeepsSeconds(w1, e.ix.agent, loan, w2);
  }

  lemma RepayEffect(m: Market, e: Event)
    requires e.ix.Repay? && Execute(m, e.now, e.ix).Ok?
    requires e.ix.agent in m.borrowers && LoanSound(m.borrowers[e.ix.agent], e.now)
    ensures Accrue(m.pool, e.now).Ok?
    ensures var q := Accrue(m.pool, e.now).value;
            var p := m.borrowers[e.ix.agent];
            var after := Execute(m, e.now, e.ix).value;
            && e.ix.agent in after.borrowers
            && var p' := after.borrowers[e.ix.agent];
            && p.status == Active
            && p.principal <= q.totalBorrows
            && p' == p.(accruedInterest := p'.accruedInterest, lastAccrual := e.now, status := Repaid)
            && LoanSound(p', e.now)
            && after == m.(pool := q.(totalBorrows := q.totalBorrows - p.principal),
                           vault := m.vault + p.principal + p'.accruedInterest,
                           borrowers := m.borrowers[e.ix.agent := p'])
  {
  }

  lemma RepayKeepsSeconds(w: World, a: Pubkey, p': BorrowerPosition, after: World)
    requires SecondsConserved(w)
    requires a in w.market.borrowers && w.market.borrowers[a].status == Active && p'.status == Repaid
    requires p' == w.market.borrowers[a].(accruedInterest := p'.accruedInterest, lastAccrual := w.clock,
                                          status := Repaid)
    requires after.clock == w.clock && after.market.borrowers == w.market.borrowers[a := p']
    requires after.market.pool == w.market.pool.(totalBorrows := after.market.pool.totalBorrows)
    requires after.market.pool.totalBorrows == w.market.pool.totalBorrows - p'.principal
    requires after.book == w.book.(residueSeconds := w.book.residueSeconds
                                                     + p'.principal * (w.clock - w.market.pool.lastAccrual))
    ensures SecondsConserved(after)
  {
    hide Total;
    LoanWritten(w.market.borrowers, a, p', w.clock);
    MoreBorrowed(after.market.pool.totalBorrows, p'.principal, w.clock - w.market.pool.lastAccrual);
  }

  lemma RepayStep(w: World, e: Event)
    requires e.ix.Repay? && Execute(w.market, e.now, e.ix).Ok?
    requires e.ix.agent in w.market.borrowers && Accrue(w.market.pool, e.now).Ok?
    requires Execute(w.market, e.now, e.ix).value.pool.lastAccrual == Accrue(w.market.pool, e.now).value.lastAccrual
    ensures var w1 := AfterAccrual(w, e.now, Accrue(w.market.pool, e.now).value);
            Step(w, e) == World(Execute(w.market, e.now, e.ix).value, e.now,
                                w1.book.(residueSeconds := w1.book.residueSeconds
                                  + w.market.borrowers[e.ix.agent].principal
                                    * (e.now - w1.market.pool.lastAccrual)))
  {
  }

  lemma RepayKeepsInvariant(w: World, e: Event)
    requires Invariant(w) && w.clock <= e.now
    requires e.ix.Repay? && Execute(w.market, e.now, e.ix).Ok?
    ensures Invariant(Step(w, e))
  {
    hide Accrue;
    hide GrossInterest;
    hide Total;
    hide SimpleInterest;
    AccrualKeepsInvariant(w, e.now);
    var w1 := AfterAccrual(w, e.now, Accrue(w.market.pool, e.now).value);
    assert LoanSound(w1.market.borrowers[e.ix.agent], e.now);
    RepayEffect(w.market, e);
    RepayStep(w, e);
    var w2 := Step(w, e);
    var loan := w2.market.borrowers[e.ix.agent];
    LoanKeepsPositions(w1.market, e.now, e.ix.agent, loan, w2.market);
    ProductNonNegative(loan.principal, e.now - w1.market.pool.lastAccrual);
    LoansApart(w1, w2);
    LoanWritten(w.market.borrowers, e.ix.agent, loan, e.now);
    RepayKeepsSeconds(w1, e.ix.agent, loan, w2);
  }

  lemma WithdrawEffect(m: Market, e: Event)
    requires e.ix.Withdraw? && Execute(m, e.now, e.ix).Ok?
    ensures e.ix.lender in m.lenders && Accrue(m.pool, e.now).Ok?
    ensures var q := Accrue(m.pool, e.now).value;
            var after := Execute(m, e.now, e.ix).value;
            && m.lenders[e.ix.lender].totalDeposited <= q.totalDeposits
            && after.vault <= m.vault
            && after == m.(pool := q.(totalDeposits := q.totalDeposits - m.lenders[e.ix.lender].totalDeposited),
                           vault := after.vault,
                           lenders := m.lenders - {e.ix.lender})
            && PayoutFor(m.lenders[e.ix.lender].scaledDeposit, q.scaleFactor) == Ok(m.vault - after.vault)
            && q.accruedProtocolFees <= after.vault
  {
  }

  lemma WithdrawKeepsInvariant(w: World, e: Event)
    requires Invariant(w) && w.clock <= e.now
    requires e.ix.Withdraw? && Execute(w.market, e.now, e.ix).Ok?
    ensures Invariant(Step(w, e))
  {
    AccrualKeepsInvariant(w, e.now);
    WithdrawEffect(w.market, e);
    var w1 := AfterAccrual(w, e.now, Accrue(w.market.pool, e.now).value);
    var w2 := Step(w, e);
    LenderRemoved(w.market.lenders, e.ix.lender, w1.market.pool.scaleFactor);
    LendersApart(w1, w2);
    assert Consistent(w2.market, e.now);
    assert ExcessCovered(w2.market);
  }

  lemma ClaimKeepsInvariant(w: World, e: Event)
    requires Invariant(w) && w.clock <= e.now
    requires e.ix.ClaimProtocolFees? && Execute(w.market, e.now, e.ix).Ok?
    ensures Invariant(Step(w, e))
  {
    hide Accrue;
    hide GrossInterest;
    hide Total;
    AccrualKeepsInvariant(w, e.now);
    var w1 := AfterAccrual(w, e.now, Accrue(w.market.pool, e.now).value);
    var w2 := Step(w, e);
    assert w2.market.vault == w1.market.vault - w1.market.pool.accruedProtocolFees;
    assert w2.market.pool == w1.market.pool.(accruedProtocolFees := 0);
    assert w2.book == w1.book.(feesClaimed := w1.book.feesClaimed + w1.market.pool.accruedProtocolFees);
    assert Consistent(w2.market, e.now);
    assert SecondsConserved(w2);
  }

  lemma TopUpEffect(w: World, e: Event)
    requires e.ix.TopUp? && Execute(w.market, e.now, e.ix).Ok?
    ensures w.market.vault + e.ix.amount < U64_MODULUS
    ensures Step(w, e) == World(w.market.(vault := w.market.vault + e.ix.amount), e.now,
                                w.book.(donated := w.book.donated + e.ix.amount))
  {
  }

  lemma TopUpKeepsInvariant(w: World, e: Event)
    requires Invariant(w) && w.clock <= e.now
    requires e.ix.TopUp? && Execute(w.market, e.now, e.ix).Ok?
    ensures Invariant(Step(w, e))
  {
    TimePasses(w, e.now);
    TopUpEffect(w, e);
    var w2 := Step(w, e);
    assert Consistent(w2.market, e.now);
    assert SecondsConserved(w2);
    assert InterestRounded(w2);
  }

  /** Which parts of the accounts a successful instruction can touch. */
  lemma InstructionShape(m: Market, e: Event)
    requires Execute(m, e.now, e.ix).Ok?
    ensures var after := Execute(m, e.now, e.ix).value;
            && (e.ix.TopUp? ==> after.pool == m.pool)
            && (!e.ix.TopUp? ==>
                  && Accrue(m.pool, e.now).Ok?
                  && after.pool == Accrue(m.pool, e.now).value.(totalDeposits := after.pool.totalDeposits,
                                                                totalBorrows := after.pool.totalBorrows,
                                                                accruedProtocolFees := after.pool.accruedProtocolFees))
            && (!e.ix.Deposit? && !e.ix.Withdraw? ==> after.lenders == m.lenders)
            && (!e.ix.Borrow? && !e.ix.Repay? ==> after.borrowers == m.borrowers)
            && after.feeRecipient == m.feeRecipient
  {
  }

  /** Whatever the instruction, and whether or not it succeeds. */
  lemma StepKeepsInvariant(w: World, e: Event)
    requires Invariant(w) && w.clock <= e.now
    ensures Invariant(Step(w, e)) && Step(w, e).clock == e.now
  {
    if Execute(w.market, e.now, e.ix).Err? {
      TimePasses(w, e.now);
    } else {
      match e.ix
      case Deposit(_, _, _) => DepositKeepsInvariant(w, e);
      case Borrow(_, _, _, _) => BorrowKeepsInvariant(w, e);
      case Repay(_, _) => RepayKeepsInvariant(w, e);
      case Withdraw(_) => WithdrawKeepsInvariant(w, e);
      case ClaimProtocolFees(_) => ClaimKeepsInvariant(w, e);
      case TopUp(_) => TopUpKeepsInvariant(w, e);
    }
  }

  lemma {:induction false} RunKeepsInvariant(w: World, es: seq<Event>)
    requires Invariant(w) && Chronological(w.clock, es)
    ensures Invariant(Run(w, es))
    decreases |es|
  {
    if es == [] {
    } else {
      StepKeepsInvariant(w, es[0]);
      RunKeepsInvariant(Step(w, es[0]), es[1..]);
    }
  }

  lemma GenesisInvariant(m: Market, now: i64)
    requires Fresh(m, now)
    ensures Invariant(Genesis(m, now))
  {
  }

  /** The invariant holds in every world a pool can get into. */
  lemma ReachableInvariant(w: World)
    requires Reachable(w)
    ensures Invariant(w)
  {
    var t0: i64 :| ReachableSince(t0, w);
    var m: Market, es: seq<Event> :| Fresh(m, t0) && Chronological(t0, es) && w == Run(Genesis(m, t0), es);
    GenesisInvariant(m, t0);
    RunKeepsInvariant(Genesis(m, t0), es);
  }

  lemma {:induction false} RunOneMore(w: World, es: seq<Event>, e: Event)
    requires Chronological(w.clock, es) && Run(w, es).clock <= e.now
    requires Invariant(w)
    ensures Chronological(w.clock, es + [e])
    ensures Run(w, es + [e]) == Step(Run(w, es), e)
    decreases |es|
  {
    if es == [] {
      assert es + [e] == [e];
      assert Run(Step(w, e), [e][1..]) == Step(w, e);
    } else {
      StepKeepsInvariant(w, es[0]);
      assert (es + [e])[1..] == es[1..] + [e];
      RunOneMore(Step(w, es[0]), es[1..], e);
    }
  }

  /** One more step of a reachable world is reachable. */
  lemma ReachableStep(w: World, e: Event)
    requires Reachable(w) && w.clock <= e.now
    ensures Reachable(Step(w, e))
  {
    var t0: i64 :| ReachableSince(t0, w);
    var m: Market, es: seq<Event> :| Fresh(m, t0) && Chronological(t0, es) && w == Run(Genesis(m, t0), es);
    GenesisInvariant(m, t0);
    RunOneMore(Genesis(m, t0), es, e);
    assert ReachableSince(t0, Step(w, e));
  }
}
