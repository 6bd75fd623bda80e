/**
 Runs of one pool. A world is the accounts, the clock, and a book of history
 totals that the program itself does not store. The book is written from the
 outside: every entry is read off the accounts before and after the step.
 */
module History {
  import opened Machine
  import opened Lending

  datatype Book = Book(
    accruals: nat,         // accruals that moved lastAccrual
    poolSeconds: int,      // borrows times seconds, over those accruals
    gross: int,            // interest the pool meant to book, before any cast
    idleSeconds: int,      // amount times seconds charged to a loan from before it was taken
    residueSeconds: int,   // principal times seconds not yet booked when a loan was repaid
    feesClaimed: int,
    excessPaid: int,       // payouts minus nominal deposits, over withdrawn lenders
    donated: int)

  datatype World = World(market: Market, clock: i64, book: Book)

  datatype Event = Event(now: i64, ix: Instruction)

  /** floor(borrows * rate * seconds / PERIOD), without any bound on the product. */
  function GrossInterest(p: Pool, seconds: int): int {
    p.totalBorrows * p.minInterestBips * seconds / PERIOD
  }

  function RecordAccrual(b: Book, p: Pool, lastAccrual: i64): Book {
    var seconds := lastAccrual - p.lastAccrual;
    b.(accruals := b.accruals + (if seconds == 0 then 0 else 1),
       poolSeconds := b.poolSeconds + p.totalBorrows * seconds,
       gross := b.gross + GrossInterest(p, seconds))
  }

  function RecordEdit(b: Book, before: Market, e: Event, after: Market): Book {
    match e.ix
    case Deposit(_, _, _) => b
    case Borrow(_, amount, _, _) =>
      b.(idleSeconds := b.idleSeconds + amount * (e.now - after.pool.lastAccrual))
    case Repay(agent, _) =>
      if agent in before.borrowers then
        b.(residueSeconds := b.residueSeconds
                             + before.borrowers[agent].principal * (e.now - after.pool.lastAccrual))
      else b
    case Withdraw(lender) =>
      if lender in before.lenders then
        b.(excessPaid := b.excessPaid + (before.vault - after.vault) - before.lenders[lender].totalDeposited)
      else b
    case ClaimProtocolFees(_) => b.(feesClaimed := b.feesClaimed + (before.vault - after.vault))
    case TopUp(_) => b.(donated := b.donated + (after.vault - before.vault))
  }

  /** A failed transaction changes nothing but the time. */
  function Step(w: World, e: Event): World {
    match Execute(w.market, e.now, e.ix)
    case Err(_) => w.(clock := e.now)
    case Ok(after) =>
      World(after, e.now,
            RecordEdit(RecordAccrual(w.book, w.market.pool, after.pool.lastAccrual), w.market, e, after))
  }

  function Run(w: World, es: seq<Event>): World
    decreases |es|
  {
    if es == [] then w else Run(Step(w, es[0]), es[1..])
  }

  /** The clock never goes back. */
  predicate Chronological(clock: i64, es: seq<Event>)
    decreases |es|
  {
    es == [] || (clock <= es[0].now && Chronological(es[0].now, es[1..]))
  }

  function Genesis(m: Market, now: i64): World {
    World(m, now, Book(0, 0, 0, 0, 0, 0, 0, 0))
  }

  /** A pool without a past: no accounts, no totals, nothing in the vault, and the accrual clock at now. */
  predicate Fresh(m: Market, now: i64) {
    && m.pool.scaleFactor == RAY
    && m.pool.lastAccrual == now
    && m.pool.totalDeposits == 0 && m.pool.totalBorrows == 0
    && m.pool.totalInterestEarned == 0 && m.pool.accruedProtocolFees == 0
    && m.vault == 0 && m.lenders == map[] && m.borrowers == map[]
  }

  /** The worlds a pool initialized at `t0` can get into. */
  ghost predicate ReachableSince(t0: i64, w: World) {
    exists m: Market, es: seq<Event> ::
      Fresh(m, t0) && Chronological(t0, es) && w == Run(Genesis(m, t0), es)
  }

  /** The worlds a pool can get into. */
  ghost predicate Reachable(w: World) {
    exists t0: i64 :: ReachableSince(t0, w)
  }
}
