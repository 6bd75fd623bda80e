/** Per-account amounts, the invariant of every run, and the proof that every step keeps it. */
module Accounting {
  import opened Machine
  import opened Totals
  import opened Lending
  import opened History

  // ----- amounts per account -----

  function Nominal(lenders: map<Pubkey, LenderPosition>): Amounts {
    map l | l in lenders :: lenders[l].totalDeposited
  }

  /** What a lender's scaled units are worth above the nominal deposit, in units of 1/RAY. */
  function ExcessOf(p: LenderPosition, scaleFactor: int): int {
    var gain := p.scaledDeposit * scaleFactor - p.totalDeposited * RAY;
    if gain > 0 then gain else 0
  }

  function Excess(lenders: map<Pubkey, LenderPosition>, scaleFactor: int): Amounts {
    map l | l in lenders :: ExcessOf(lenders[l], scaleFactor)
  }

  function PrincipalOf(p: BorrowerPosition): int {
    if p.status == Active then p.principal else 0
  }

  function ActivePrincipal(borrowers: map<Pubkey, BorrowerPosition>): Amounts {
    map a | a in borrowers :: PrincipalOf(borrowers[a])
  }

  function InterestPaid(borrowers: map<Pubkey, BorrowerPosition>): Amounts {
    map a | a in borrowers :: borrowers[a].accruedInterest
  }

  /** Seconds a loan has been or was outstanding. */
  function Duration(p: BorrowerPosition, clock: int): int {
    (if p.status == Active then clock else p.lastAccrual) - p.borrowedAt
  }

  function SecondsOf(p: BorrowerPosition, clock: int): int {
    p.principal * Duration(p, clock)
  }

  function LoanSeconds(borrowers: map<Pubkey, BorrowerPosition>, clock: int): Amounts {
    map a | a in borrowers :: SecondsOf(borrowers[a], clock)
  }

  // ----- the invariant -----

  ghost predicate LoanSound(p: BorrowerPosition, clock: i64) {
    && p.borrowedAt <= p.lastAccrual <= clock
    && (p.status == Active ==> p.lastAccrual == p.borrowedAt && p.accruedInterest == 0)
    && (p.status == Repaid ==> p.accruedInterest == InterestDue(p) % U64_MODULUS)
  }

  /** Simple interest of a loan over its life, before the cast to 64 bits. */
  function InterestDue(p: BorrowerPosition): int {
    p.principal * p.interestBips * (p.lastAccrual - p.borrowedAt) / PERIOD
  }

  /** Aggregates are sums over positions; shares never exceed nominal deposits. */
  ghost predicate Consistent(m: Market, clock: i64) {
    && m.pool.totalDeposits == Total(Nominal(m.lenders))
    && m.pool.totalBorrows == Total(ActivePrincipal(m.borrowers))
    && m.pool.scaleFactor >= RAY
    && m.pool.lastAccrual <= clock
    && (forall l :: l in m.lenders ==> m.lenders[l].scaledDeposit <= m.lenders[l].totalDeposited)
    && (forall a :: a in m.borrowers ==> LoanSound(m.borrowers[a], clock))
  }

  ghost predicate ExcessCovered(m: Market) {
    Total(Excess(m.lenders, m.pool.scaleFactor)) <= m.pool.totalInterestEarned * RAY
  }

  ghost predicate VaultBalanced(w: World) {
    w.market.vault + w.market.pool.totalBorrows
    == w.market.pool.totalDeposits + Total(InterestPaid(w.market.borrowers))
       + w.book.donated - w.book.feesClaimed - w.book.excessPaid
  }

  ghost predicate SecondsConserved(w: World) {
    w.book.poolSeconds
    + w.market.pool.totalBorrows * (w.clock - w.market.pool.lastAccrual)
    + w.book.residueSeconds
    == Total(LoanSeconds(w.market.borrowers, w.clock)) + w.book.idleSeconds
  }

  /** Interest booked by the pool and not credited to anybody because a cast dropped it. */
  function Uncredited(w: World): int {
    w.book.gross - w.market.pool.totalInterestEarned - w.market.pool.accruedProtocolFees - w.book.feesClaimed
  }

  ghost predicate InterestRounded(w: World) {
    && PERIOD * w.book.gross <= w.market.pool.minInterestBips * w.book.poolSeconds
    && w.market.pool.minInterestBips * w.book.poolSeconds <= PERIOD * w.book.gross + (PERIOD - 1) * w.book.accruals
    && 0 <= Uncredited(w)
    && 0 <= w.book.residueSeconds
    && 0 <= w.book.idleSeconds
    && 0 <= w.book.donated
    && (Uncredited(w) == 0 ==>
          9 * (w.market.pool.accruedProtocolFees + w.book.feesClaimed) <= w.market.pool.totalInterestEarned)
  }

  ghost predicate Invariant(w: World) {
    && Consistent(w.market, w.clock)
    && ExcessCovered(w.market)
    && VaultBalanced(w)
    && SecondsConserved(w)
    && InterestRounded(w)
  }
}
