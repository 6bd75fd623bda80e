/**
 The pool books interest on its total borrows, the loans pay interest one by
 one, and both round. This module proves how far the two can drift apart.
 */
module BalanceSheet {
  import opened Machine
  import opened Rounding
  import opened Totals
  import opened Lending
  import opened History
  import opened Accruing
  import opened Accounting
  import opened Steps

  // ----- what the ledger says in every reachable world -----

  /** Every token is accounted for, over all runs. */
  lemma VaultLedger(w: World)
    requires Reachable(w)
    ensures w.market.vault + w.market.pool.totalBorrows
         == w.market.pool.totalDeposits + Total(InterestPaid(w.market.borrowers))
            + w.book.donated - w.book.feesClaimed - w.book.excessPaid
  {
    ReachableInvariant(w);
  }

  /** Every second of every loan is charged exactly once, up to idle and residual seconds. */
  lemma PrincipalSeconds(w: World)
    requires Reachable(w)
    ensures w.book.poolSeconds
            + w.market.pool.totalBorrows * (w.clock - w.market.pool.lastAccrual)
            + w.book.residueSeconds
         == Total(LoanSeconds(w.market.borrowers, w.clock)) + w.book.idleSeconds
  {
    ReachableInvariant(w);
  }

  /** The aggregates of the pool are the sums over its positions. */
  lemma AggregatesAreSums(w: World)
    requires Reachable(w)
    ensures w.market.pool.totalDeposits == Total(Nominal(w.market.lenders))
    ensures w.market.pool.totalBorrows == Total(ActivePrincipal(w.market.borrowers))
    ensures RAY <= w.market.pool.scaleFactor
    ensures forall l :: l in w.market.lenders ==>
              w.market.lenders[l].scaledDeposit <= w.market.lenders[l].totalDeposited
  {
    ReachableInvariant(w);
  }

  // ----- loans, repaid and active -----

  function RepaidSecondsOf(p: BorrowerPosition): int {
    if p.status == Repaid then SecondsOf(p, 0) else 0
  }

  function RepaidSeconds(borrowers: map<Pubkey, BorrowerPosition>): Amounts {
    map a | a in borrowers :: RepaidSecondsOf(borrowers[a])
  }

  function ActiveSecondsOf(p: BorrowerPosition, clock: int): int {
    if p.status == Active then SecondsOf(p, clock) else 0
  }

  function ActiveSeconds(borrowers: map<Pubkey, BorrowerPosition>, clock: int): Amounts {
    map a | a in borrowers :: ActiveSecondsOf(borrowers[a], clock)
  }

  function Repayments(borrowers: map<Pubkey, BorrowerPosition>): Amounts {
    map a | a in borrowers :: if borrowers[a].status == Repaid then 1 else 0
  }

  /** How many loans have been repaid. */
  ghost function RepaidLoans(m: Market): int {
    Total(Repayments(m.borrowers))
  }

  /** Every loan costs at least the pool's own rate, and no repayment lost interest in a cast. */
  ghost predicate LoansPayTheRate(m: Market) {
    forall a :: a in m.borrowers ==>
      && m.pool.minInterestBips <= m.borrowers[a].interestBips
      && (m.borrowers[a].status == Repaid ==> InterestDue(m.borrowers[a]) < U64_MODULUS)
  }

  /** No loan costs more than the pool's own rate. */
  ghost predicate LoansWithinRate(m: Market) {
    forall a :: a in m.borrowers ==> m.borrowers[a].interestBips <= m.pool.minInterestBips
  }

  lemma SecondsSplit(borrowers: map<Pubkey, BorrowerPosition>, clock: int)
    ensures Total(LoanSeconds(borrowers, clock))
         == Total(ActiveSeconds(borrowers, clock)) + Total(RepaidSeconds(borrowers))
  {
    TotalSum(ActiveSeconds(borrowers, clock), RepaidSeconds(borrowers), LoanSeconds(borrowers, clock));
  }

  lemma RatedSeconds(principal: int, rate: int, bips: int, seconds: int)
    requires 0 <= principal && 0 <= seconds && rate <= bips
    ensures rate * (principal * seconds) <= principal * bips * seconds
  {
  }

  lemma FloorCovers(rated: int, product: int)
    requires 0 <= rated <= product && product / PERIOD < U64_MODULUS
    ensures rated <= PERIOD * (product / PERIOD % U64_MODULUS) + (PERIOD - 1)
  {
  }

  /** A repaid loan has paid its interest at the pool's rate, short of one unit at most. */
  lemma LoanPaysEnough(p: BorrowerPosition, clock: i64, rate: nat)
    requires LoanSound(p, clock) && rate <= p.interestBips
    requires p.status == Repaid ==> InterestDue(p) < U64_MODULUS
    ensures rate * RepaidSecondsOf(p)
         <= PERIOD * p.accruedInterest + (PERIOD - 1) * (if p.status == Repaid then 1 else 0)
  {
    if p.status == Repaid {
      var seconds := p.lastAccrual - p.borrowedAt;
      assert RepaidSecondsOf(p) == p.principal * seconds;
      RatedSeconds(p.principal, rate, p.interestBips, seconds);
      ProductNonNegative(p.principal, seconds);
      ProductNonNegative(rate, p.principal * seconds);
      FloorCovers(rate * (p.principal * seconds), p.principal * p.interestBips * seconds);
    } else {
      assert rate * 0 == 0;
    }
  }

  lemma LoanPaysNoMore(p: BorrowerPosition, clock: i64, rate: int)
    requires LoanSound(p, clock) && p.interestBips <= rate
    ensures PERIOD * p.accruedInterest <= rate * RepaidSecondsOf(p)
  {
    if p.status == Repaid {
      var seconds := p.lastAccrual - p.borrowedAt;
      var product := p.principal * p.interestBips * seconds;
      ProductNonNegative(p.principal, seconds);
      ProductMonotone(p.principal * seconds, p.interestBips, rate);
      assert p.principal * seconds * p.interestBips == product;
      assert p.principal * seconds * rate == rate * (p.principal * seconds);
      FloorBounds(product, PERIOD);
      ProductNonNegative(p.principal * p.interestBips, seconds);
      FloorAtLeast(product, PERIOD, 0);
      CastOnlyLowers(InterestDue(p));
    } else {
      assert rate * 0 == 0;
    }
  }

  lemma LoansPayEnough(m: Market, clock: i64)
    requires Consistent(m, clock) && LoansPayTheRate(m)
    ensures m.pool.minInterestBips * Total(RepaidSeconds(m.borrowers))
         <= PERIOD * Total(InterestPaid(m.borrowers)) + (PERIOD - 1) * RepaidLoans(m)
  {
    var rate := m.pool.minInterestBips;
    var due := map a | a in m.borrowers :: rate * RepaidSecondsOf(m.borrowers[a]);
    var paid := map a | a in m.borrowers :: PERIOD * m.borrowers[a].accruedInterest;
    var slack := map a | a in m.borrowers :: (PERIOD - 1) * (if m.borrowers[a].status == Repaid then 1 else 0);
    var both := map a | a in m.borrowers :: paid[a] + slack[a];
    TotalScaled(rate, RepaidSeconds(m.borrowers), due);
    TotalScaled(PERIOD, InterestPaid(m.borrowers), paid);
    TotalScaled(PERIOD - 1, Repayments(m.borrowers), slack);
    TotalSum(paid, slack, both);
    forall a | a in m.borrowers
      ensures due[a] <= both[a]
    {
      LoanPaysEnough(m.borrowers[a], clock, rate);
    }
    TotalMonotone(due, both);
  }

  lemma LoansPayNoMore(m: Market, clock: i64)
    requires Consistent(m, clock) && LoansWithinRate(m)
    ensures PERIOD * Total(InterestPaid(m.borrowers))
         <= m.pool.minInterestBips * Total(RepaidSeconds(m.borrowers))
  {
    var rate := m.pool.minInterestBips;
    var due := map a | a in m.borrowers :: rate * RepaidSecondsOf(m.borrowers[a]);
    var paid := map a | a in m.borrowers :: PERIOD * m.borrowers[a].accruedInterest;
    TotalScaled(rate, RepaidSeconds(m.borrowers), due);
    TotalScaled(PERIOD, InterestPaid(m.borrowers), paid);
    forall a | a in m.borrowers
      ensures paid[a] <= due[a]
    {
      LoanPaysNoMore(m.borrowers[a], clock, rate);
    }
    TotalMonotone(paid, due);
  }

  // ----- the gap -----

  /** What the pool owes to lenders and to the protocol. */
  function Obligations(w: World): int {
    w.market.pool.totalDeposits + w.market.pool.totalInterestEarned + w.market.pool.accruedProtocolFees
  }

  /** The pool's own assets at face value: vault and principal lent, apart from gifts and past excess payouts. */
  function Assets(w: World): int {
    w.market.vault + w.market.pool.totalBorrows + w.book.excessPaid - w.book.donated
  }

  /** Principal-seconds the pool has already booked and no repayment covers. */
  ghost function OpenSeconds(w: World): int {
    Total(ActiveSeconds(w.market.borrowers, w.clock))
    + w.book.idleSeconds - w.book.residueSeconds
    - w.market.pool.totalBorrows * (w.clock - w.market.pool.lastAccrual)
  }

  /** The seconds the pool has booked are those of repaid loans and the open ones. */
  lemma BookedSeconds(w: World)
    requires SecondsConserved(w)
    ensures w.book.poolSeconds == Total(RepaidSeconds(w.market.borrowers)) + OpenSeconds(w)
  {
    SecondsSplit(w.market.borrowers, w.clock);
  }

  /**
   The pool never owes more than it has and is still to receive, plus under
   one unit per repaid loan, plus the interest of idle seconds.
   */
  lemma CreditIsCovered(w: World)
    requires Reachable(w) && LoansPayTheRate(w.market)
    ensures PERIOD * Obligations(w)
         <= PERIOD * Assets(w) + w.market.pool.minInterestBips * OpenSeconds(w)
            + (PERIOD - 1) * RepaidLoans(w.market)
  {
    hide Total;
    hide LoansPayTheRate;
    hide Consistent;
    hide ExcessCovered;
    ReachableInvariant(w);
    BookedSeconds(w);
    LoansPayEnough(w.market, w.clock);
    Distribute(w.market.pool.minInterestBips, Total(RepaidSeconds(w.market.borrowers)), OpenSeconds(w));
  }

  lemma GapFromBelow(booked: int, repaid: int, open: int, gross: int, accruals: int, interest: int,
                     credited: int, claimed: int, assets: int, deposits: int)
    requires booked == repaid + open
    requires booked <= PERIOD * gross + (PERIOD - 1) * accruals
    requires PERIOD * interest <= repaid
    requires gross == credited + claimed
    requires assets == deposits + interest - claimed
    ensures PERIOD * assets + open <= PERIOD * (deposits + credited) + (PERIOD - 1) * accruals
  {
  }

  /**
   The bound from the other side: as long as no cast dropped interest, the
   pool owes no less than that, short of under one unit per accrual.
   */
  lemma CreditIsNotLost(w: World)
    requires Reachable(w) && LoansWithinRate(w.market) && Uncredited(w) == 0
    ensures PERIOD * Assets(w) + w.market.pool.minInterestBips * OpenSeconds(w)
         <= PERIOD * Obligations(w) + (PERIOD - 1) * w.book.accruals
  {
    hide Total;
    hide LoansWithinRate;
    hide Consistent;
    hide ExcessCovered;
    ReachableInvariant(w);
    BookedSeconds(w);
    LoansPayNoMore(w.market, w.clock);
    var p, rate := w.market.pool, w.market.pool.minInterestBips;
    var repaid := Total(RepaidSeconds(w.market.borrowers));
    Distribute(rate, repaid, OpenSeconds(w));
    GapFromBelow(rate * w.book.poolSeconds, rate * repaid, rate * OpenSeconds(w), w.book.gross, w.book.accruals,
                 Total(InterestPaid(w.market.borrowers)), p.totalInterestEarned + p.accruedProtocolFees,
                 w.book.feesClaimed, Assets(w), p.totalDeposits);
  }

  // ----- when no cast drops interest -----

  /** Two conditions the run's start sets: the pool's and the loans' timestamps follow it. */
  ghost predicate StartedAt(t0: i64, w: World) {
    && t0 <= w.market.pool.lastAccrual
    && (forall a :: a in w.market.borrowers ==> t0 <= w.market.borrowers[a].borrowedAt)
  }

  lemma StepKeepsStart(t0: i64, w: World, e: Event)
    requires Consistent(w.market, w.clock) && StartedAt(t0, w) && t0 <= w.clock <= e.now
    ensures StartedAt(t0, Step(w, e))
  {
    if Execute(w.market, e.now, e.ix).Ok? {
      InstructionShape(w.market, e);
      if !e.ix.TopUp? {
        AccrualEffect(w.market.pool, e.now);
      }
      if e.ix.Borrow? {
        BorrowEffect(w.market, e);
      }
    }
  }

  lemma GrossFits(p: Pool, seconds: int)
    requires 0 <= seconds < U128_MODULUS && p.minInterestBips * seconds <= PERIOD
    ensures 0 <= GrossInterest(p, seconds) < U64_MODULUS
  {
    InterestFits(p.totalBorrows, p.minInterestBips, seconds);
  }

  /** Interest that fits is credited in full. */
  lemma AccrualCreditsInFull(w: World, now: i64)
    requires w.market.pool.lastAccrual <= now && Accrue(w.market.pool, now).Ok?
    requires w.market.pool.minInterestBips * (now - w.market.pool.lastAccrual) <= PERIOD
    ensures Uncredited(AfterAccrual(w, now, Accrue(w.market.pool, now).value)) == Uncredited(w)
  {
    hide Accrue;
    hide GrossInterest;
    var p, q := w.market.pool, Accrue(w.market.pool, now).value;
    AccrualEffect(p, now);
    if q.lastAccrual == p.lastAccrual {
      NoGross(p);
    } else {
      GrossFits(p, now - p.lastAccrual);
      CastKeepsSmall(GrossInterest(p, now - p.lastAccrual));
    }
  }

  /** Only accruals credit interest; the rest of a step moves it between the pool and the fee recipient. */
  lemma StepCreditsInFull(w: World, e: Event)
    requires w.market.pool.lastAccrual <= e.now
    requires w.market.pool.minInterestBips * (e.now - w.market.pool.lastAccrual) <= PERIOD
    ensures Uncredited(Step(w, e)) == Uncredited(w)
  {
    if Execute(w.market, e.now, e.ix).Ok? {
      InstructionShape(w.market, e);
      if e.ix.TopUp? {
        TopUpEffect(w, e);
      } else {
        AccrualCreditsInFull(w, e.now);
      }
    }
  }

  lemma StepKeepsRate(w: World, e: Event)
    requires Consistent(w.market, w.clock) && w.clock <= e.now
    ensures Step(w, e).market.pool.minInterestBips == w.market.pool.minInterestBips
    ensures Step(w, e).market.pool.reserveRatioBips == w.market.pool.reserveRatioBips
    ensures Step(w, e).market.pool.depositWindowEnd == w.market.pool.depositWindowEnd
    ensures Step(w, e).market.pool.minTermSeconds == w.market.pool.minTermSeconds
  {
    if Execute(w.market, e.now, e.ix).Ok? {
      InstructionShape(w.market, e);
      if !e.ix.TopUp? {
        AccrualEffect(w.market.pool, e.now);
      }
    }
  }

  lemma {:induction false} RunKeepsClockAndRate(w: World, es: seq<Event>)
    requires Invariant(w) && Chronological(w.clock, es)
    ensures w.clock <= Run(w, es).clock
    ensures Run(w, es).market.pool.minInterestBips == w.market.pool.minInterestBips
    decreases |es|
  {
    if es == [] {
    } else {
      StepKeepsInvariant(w, es[0]);
      StepKeepsRate(w, es[0]);
      RunKeepsClockAndRate(Step(w, es[0]), es[1..]);
    }
  }

  lemma YoungStepCreditsInFull(t0: i64, w: World, e: Event, end: int)
    requires Consistent(w.market, w.clock) && t0 <= w.market.pool.lastAccrual && w.clock <= e.now <= end
    requires w.market.pool.minInterestBips * (end - t0) <= PERIOD
    ensures Uncredited(Step(w, e)) == Uncredited(w)
  {
    ProductMonotone(w.market.pool.minInterestBips, e.now - w.market.pool.lastAccrual, end - t0);
    StepCreditsInFull(w, e);
  }

  lemma {:induction false} RunCreditsInFull(t0: i64, w: World, es: seq<Event>, end: int)
    requires Invariant(w) && StartedAt(t0, w) && t0 <= w.clock && Chronological(w.clock, es)
    requires end == Run(w, es).clock
    requires w.market.pool.minInterestBips * (end - t0) <= PERIOD
    ensures StartedAt(t0, Run(w, es))
    ensures Uncredited(Run(w, es)) == Uncredited(w)
    decreases |es|
  {
    if es == [] {
    } else {
      var next := Step(w, es[0]);
      StepKeepsInvariant(w, es[0]);
      StepKeepsRate(w, es[0]);
      StepKeepsStart(t0, w, es[0]);
      RunKeepsClockAndRate(next, es[1..]);
      YoungStepCreditsInFull(t0, w, es[0], end);
      RunCreditsInFull(t0, next, es[1..], end);
    }
  }

  /** The rate times the age of the pool is at most one hundred percent. */
  ghost predicate Young(t0: i64, w: World) {
    w.market.pool.minInterestBips * (w.clock - t0) <= PERIOD
  }

  lemma YoungRun(t0: i64, w: World)
    requires ReachableSince(t0, w) && Young(t0, w)
    ensures Invariant(w) && StartedAt(t0, w) && Uncredited(w) == 0 && t0 <= w.clock
  {
    hide Run;
    hide Invariant;
    var m: Market, es: seq<Event> :| Fresh(m, t0) && Chronological(t0, es) && w == Run(Genesis(m, t0), es);
    GenesisInvariant(m, t0);
    RunKeepsInvariant(Genesis(m, t0), es);
    RunKeepsClockAndRate(Genesis(m, t0), es);
    RunCreditsInFull(t0, Genesis(m, t0), es, w.clock);
  }

  /** In a young pool all interest booked is credited, and lenders earn at least nine times the fees. */
  lemma InterestIsConserved(t0: i64, w: World)
    requires ReachableSince(t0, w) && Young(t0, w)
    ensures w.market.pool.totalInterestEarned + w.market.pool.accruedProtocolFees + w.book.feesClaimed
         == w.book.gross
    ensures 9 * (w.market.pool.accruedProtocolFees + w.book.feesClaimed) <= w.market.pool.totalInterestEarned
  {
    YoungRun(t0, w);
  }

  /** In a young pool no interest computation overflows and none is cut by its cast. */
  lemma InterestNeverOverflows(t0: i64, w: World, a: Pubkey)
    requires ReachableSince(t0, w) && Young(t0, w) && LoansWithinRate(w.market)
    ensures var pool := w.market.pool;
            && pool.lastAccrual <= w.clock
            && SimpleInterest(pool.totalBorrows, pool.minInterestBips, w.clock - pool.lastAccrual).Ok?
            && SimpleInterest(pool.totalBorrows, pool.minInterestBips, w.clock - pool.lastAccrual).value < U64_MODULUS
    ensures a in w.market.borrowers ==>
              var p := w.market.borrowers[a];
              && 0 <= Duration(p, w.clock) < U128_MODULUS
              && SimpleInterest(p.principal, p.interestBips, Duration(p, w.clock)).Ok?
              && SimpleInterest(p.principal, p.interestBips, Duration(p, w.clock)).value < U64_MODULUS
              && (p.status == Repaid ==> InterestDue(p) < U64_MODULUS)
  {
    hide SimpleInterest;
    hide Total;
    hide ReachableSince;
    YoungRun(t0, w);
    var pool := w.market.pool;
    ProductMonotone(pool.minInterestBips, w.clock - pool.lastAccrual, w.clock - t0);
    InterestFits(pool.totalBorrows, pool.minInterestBips, w.clock - pool.lastAccrual);
    if a in w.market.borrowers {
      var p := w.market.borrowers[a];
      assert LoanSound(p, w.clock);
      ProductMonotone(pool.minInterestBips, Duration(p, w.clock), w.clock - t0);
      ProductMonotone(Duration(p, w.clock), p.interestBips, pool.minInterestBips);
      InterestFits(p.principal, p.interestBips, Duration(p, w.clock));
    }
  }

  /** Every loan costs exactly the pool's rate, as with both hooks that ship with the program. */
  ghost predicate PricedAtPool(m: Market) {
    forall a :: a in m.borrowers ==> m.borrowers[a].interestBips == m.pool.minInterestBips
  }

  /** The two bounds together: the gap of a young pool lies in an interval of known width. */
  lemma GapIsBounded(t0: i64, w: World)
    requires ReachableSince(t0, w) && Young(t0, w) && PricedAtPool(w.market)
    ensures var gap := PERIOD * Obligations(w) - PERIOD * Assets(w)
                       - w.market.pool.minInterestBips * OpenSeconds(w);
            -(PERIOD - 1) * w.book.accruals <= gap <= (PERIOD - 1) * RepaidLoans(w.market)
  {
    assert Reachable(w);
    YoungRun(t0, w);
    forall a | a in w.market.borrowers && w.market.borrowers[a].status == Repaid
      ensures InterestDue(w.market.borrowers[a]) < U64_MODULUS
    {
      InterestNeverOverflows(t0, w, a);
    }
    CreditIsCovered(w);
    CreditIsNotLost(w);
  }

  // ----- utilisation -----

  /** Tokens kept back from borrowers: a share of the deposits, after its cast to 64 bits. */
  function Reserves(p: Pool): int {
    p.totalDeposits * p.reserveRatioBips / BIP_DENOMINATOR % U64_MODULUS
  }

  /** Reserves never overflow, and their cast cuts nothing at a ratio of up to one hundred percent. */
  lemma ReservesFit(p: Pool)
    ensures RequiredReserves(p) == Ok(Reserves(p))
    ensures p.reserveRatioBips <= BIP_DENOMINATOR ==>
              Reserves(p) == p.totalDeposits * p.reserveRatioBips / BIP_DENOMINATOR
  {
    var product := p.totalDeposits * p.reserveRatioBips;
    ProductMonotone(p.totalDeposits, p.reserveRatioBips, 0x1_0000);
    ProductNonNegative(p.totalDeposits, p.reserveRatioBips);
    FloorAtLeast(product, BIP_DENOMINATOR, 0);
    FloorAtMost(product, BIP_DENOMINATOR, product);
    if p.reserveRatioBips <= BIP_DENOMINATOR {
      ProductMonotone(p.totalDeposits, p.reserveRatioBips, BIP_DENOMINATOR);
      FloorAtMost(product, BIP_DENOMINATOR, p.totalDeposits);
    }
  }

  /** Right after a borrow, what is lent is bounded by deposits less reserves, and fees stay covered. */
  lemma UtilisationBound(w: World, e: Event)
    requires Reachable(w) && w.clock <= e.now
    requires e.ix.Borrow? && Execute(w.market, e.now, e.ix).Ok?
    ensures var after := Step(w, e);
            && Reserves(after.market.pool) + after.market.pool.accruedProtocolFees <= after.market.vault
            && after.market.pool.totalBorrows
               <= after.market.pool.totalDeposits - Reserves(after.market.pool)
                  - after.market.pool.accruedProtocolFees + Total(InterestPaid(after.market.borrowers))
                  + after.book.donated - after.book.feesClaimed - after.book.excessPaid
  {
    ReachableInvariant(w);
    StepKeepsInvariant(w, e);
    BorrowEffect(w.market, e);
    ReservesFit(Accrue(w.market.pool, e.now).value);
  }

  /** A borrow goes through exactly on these conditions; the vault keeps the reserves and the unclaimed fees. */
  lemma BorrowSucceedsExactly(m: Market, e: Event)
    requires e.ix.Borrow? && Accrue(m.pool, e.now).Ok?
    ensures var q := Accrue(m.pool, e.now).value;
            Execute(m, e.now, e.ix).Ok?
            <==> && e.ix.agent !in m.borrowers
                 && Reserves(q) + q.accruedProtocolFees + e.ix.amount <= m.vault
                 && e.ix.hookProgram == m.pool.hookProgram
                 && e.ix.answer.Terms? && e.ix.answer.approved
                 && -I64_MAX - 1 <= e.now + e.ix.answer.termSeconds <= I64_MAX
                 && m.pool.totalBorrows + e.ix.amount < U64_MODULUS
  {
    var q := Accrue(m.pool, e.now).value;
    assert q.hookProgram == m.pool.hookProgram && q.totalBorrows == m.pool.totalBorrows;
    hide Accrue;
    ReservesFit(q);
    hide RequiredReserves;
    hide Reserves;
  }
}
