/**
 The lending pool on values: the accounts, and one function per instruction
 handler of normandy-core, branch by branch. The class LendingPool works on
 the same accounts in place and is proved to compute these functions.
 */
module Lending {
  import opened Machine

  const RAY: int := 1_000_000_000_000_000_000_000_000_000
  const SECONDS_PER_YEAR: int := 31_536_000
  const BIP_DENOMINATOR: int := 10_000
  const PROTOCOL_FEE_BIPS: int := 1000

  /** Bip-seconds in one unit of simple interest on one token unit. */
  const PERIOD: int := BIP_DENOMINATOR * SECONDS_PER_YEAR

  /** Errors of the program, and those the runtime and the token program raise for it. */
  datatype Error =
    | DepositWindowClosed
    | ReserveRatioBreached
    | BorrowRejected
    | BorrowNotActive
    | InsufficientVaultBalance
    | UnauthorizedFeeClaim
    | MathOverflow
    | InvalidHookReturnData
    | InvalidHookProgram
    | HookFailed
    | AccountAlreadyInUse
    | AccountNotInitialized
    | TokenInsufficientFunds
    | TokenOverflow

  type Outcome<T> = Result<T, Error>

  datatype Pool = Pool(
    hookProgram: Pubkey,
    scaleFactor: u128,
    totalInterestEarned: u64,
    lastAccrual: i64,
    minInterestBips: u16,
    reserveRatioBips: u16,
    totalDeposits: u64,
    totalBorrows: u64,
    accruedProtocolFees: u64,
    depositWindowEnd: i64,
    minTermSeconds: i64)

  datatype LenderPosition = LenderPosition(totalDeposited: u64, scaledDeposit: u64)

  datatype Status = Active | Repaid

  datatype BorrowerPosition = BorrowerPosition(
    principal: u64,
    interestBips: u16,
    accruedInterest: u64,
    borrowedAt: i64,
    lastAccrual: i64,
    status: Status,
    termSeconds: i64,
    maturity: i64)

  /** Every account one pool owns, with the balance of its vault. */
  datatype Market = Market(
    pool: Pool,
    vault: u64,
    lenders: map<Pubkey, LenderPosition>,
    borrowers: map<Pubkey, BorrowerPosition>,
    feeRecipient: Pubkey)

  /** What the call to the hook program brings back to borrow. */
  datatype HookAnswer =
    | CallFailed
    | NoReadableData
    | Terms(approved: bool, interestBips: u16, termSeconds: i64)

  datatype Instruction =
    | Deposit(lender: Pubkey, amount: u64, funds: u64)
    | Borrow(agent: Pubkey, amount: u64, hookProgram: Pubkey, answer: HookAnswer)
    | Repay(agent: Pubkey, funds: u64)
    | Withdraw(lender: Pubkey)
    | ClaimProtocolFees(signer: Pubkey)
    | TopUp(amount: u64)  // a plain token transfer into the vault

  // ----- checked arithmetic -----

  function Add64(a: u64, b: u64): Outcome<u64> {
    if a + b < U64_MODULUS then Ok(a + b) else Err(MathOverflow)
  }

  function Sub64(a: u64, b: u64): Outcome<u64> {
    if b <= a then Ok(a - b) else Err(MathOverflow)
  }

  function Add128(a: u128, b: u128): Outcome<u128> {
    if a + b < U128_MODULUS then Ok(a + b) else Err(MathOverflow)
  }

  function Mul128(a: u128, b: u128): Outcome<u128> {
    var product := a * b;
    if 0 <= product < U128_MODULUS then Ok(product) else Err(MathOverflow)
  }

  function Div128(a: u128, b: u128): Outcome<u128> {
    if b == 0 then Err(MathOverflow)
    else
      var quotient := a / b;
      if 0 <= quotient < U128_MODULUS then Ok(quotient) else Err(MathOverflow)
  }

  function AddI64(a: i64, b: i64): Outcome<i64> {
    if -I64_MAX - 1 <= a + b <= I64_MAX then Ok(a + b) else Err(MathOverflow)
  }

  function SubI64(a: i64, b: i64): Outcome<i64> {
    if -I64_MAX - 1 <= a - b <= I64_MAX then Ok(a - b) else Err(MathOverflow)
  }

  // ----- interest and shares -----

  /** principal * bips * elapsed / PERIOD, in checked 128-bit steps. */
  function SimpleInterest(principal: u64, bips: u16, elapsed: u128): Outcome<u128> {
    var yearly :- Mul128(principal, bips);
    var product :- Mul128(yearly, elapsed);
    Ok(product / PERIOD)
  }

  function Accrue(p: Pool, now: i64): Outcome<Pool> {
    var difference :- SubI64(now, p.lastAccrual);
    var elapsed := AsU128(difference);
    if elapsed == 0 || p.totalBorrows == 0 || p.totalDeposits == 0 then
      Ok(p)
    else
      var gross :- SimpleInterest(p.totalBorrows, p.minInterestBips, elapsed);
      var feeProduct :- Mul128(gross, PROTOCOL_FEE_BIPS);
      var cut: u128 := feeProduct / BIP_DENOMINATOR;
      var earned :- Add64(p.totalInterestEarned, AsU64(gross - cut));
      var fees :- Add64(p.accruedProtocolFees, AsU64(cut));
      var growth :- Mul128(earned, RAY);
      var perUnit :- Div128(growth, p.totalDeposits);
      var scaleFactor :- Add128(RAY, perUnit);
      Ok(p.(totalInterestEarned := earned,
            accruedProtocolFees := fees,
            scaleFactor := scaleFactor,
            lastAccrual := now))
  }

  /** Scaled units bought by a deposit at the given scale factor. */
  function SharesFor(amount: u64, scaleFactor: u128): Outcome<u64> {
    var product :- Mul128(amount, RAY);
    var shares :- Div128(product, scaleFactor);
    Ok(AsU64(shares))
  }

  /** Tokens paid for scaled units at the given scale factor. */
  function PayoutFor(scaledDeposit: u64, scaleFactor: u128): Outcome<u64> {
    var product :- Mul128(scaledDeposit, scaleFactor);
    Ok(AsU64(product / RAY))
  }

  // ----- token transfers in and out of the vault -----

  function Credit(vault: u64, amount: u64): Outcome<u64> {
    if vault + amount < U64_MODULUS then Ok(vault + amount) else Err(TokenOverflow)
  }

  function Debit(vault: u64, amount: u64): Outcome<u64> {
    if amount <= vault then Ok(vault - amount) else Err(TokenInsufficientFunds)
  }

  // ----- instruction handlers -----

  function HandleInitializePool(now: i64, hookProgram: Pubkey, interestBips: u16, termSeconds: i64,
                                reserveRatioBips: u16, depositWindowEnd: i64, feeRecipient: Pubkey): Market
  {
    Market(Pool(hookProgram, RAY, 0, now, interestBips, reserveRatioBips, 0, 0, 0, depositWindowEnd, termSeconds),
           0, map[], map[], feeRecipient)
  }

  function HandleDeposit(m: Market, now: i64, lender: Pubkey, amount: u64, funds: u64): Outcome<Market> {
    if m.pool.depositWindowEnd != 0 && now > m.pool.depositWindowEnd then
      Err(DepositWindowClosed)
    else
      var pool :- Accrue(m.pool, now);
      var shares :- SharesFor(amount, pool.scaleFactor);
      if funds < amount then
        Err(TokenInsufficientFunds)
      else
        var vault :- Credit(m.vault, amount);
        var before := if lender in m.lenders then m.lenders[lender] else LenderPosition(0, 0);
        var scaled :- Add64(before.scaledDeposit, shares);
        var nominal :- Add64(before.totalDeposited, amount);
        var deposits :- Add64(pool.totalDeposits, amount);
        Ok(m.(pool := pool.(totalDeposits := deposits),
              vault := vault,
              lenders := m.lenders[lender := LenderPosition(nominal, scaled)]))
  }

  /** Reserves the pool keeps liquid: a share of the deposits, cast down to 64 bits. */
  function RequiredReserves(p: Pool): Outcome<u64> {
    var product :- Mul128(p.totalDeposits, p.reserveRatioBips);
    Ok(AsU64(product / BIP_DENOMINATOR))
  }

  /** Liquidity left for borrowers after reserves and unclaimed fees. */
  function Available(p: Pool, vault: u64): Outcome<u64> {
    var reserves :- RequiredReserves(p);
    if reserves + p.accruedProtocolFees <= vault then
      Ok(vault - reserves - p.accruedProtocolFees)
    else
      Err(ReserveRatioBreached)
  }

  function HandleBorrow(m: Market, now: i64, agent: Pubkey, amount: u64, hookProgram: Pubkey,
                        answer: HookAnswer): Outcome<Market>
  {
    if agent in m.borrowers then
      Err(AccountAlreadyInUse)
    else
      var pool :- Accrue(m.pool, now);
      var available :- Available(pool, m.vault);
      if available < amount then
        Err(ReserveRatioBreached)
      else if hookProgram != pool.hookProgram then
        Err(InvalidHookProgram)
      else
        match answer
        case CallFailed => Err(HookFailed)
        case NoReadableData => Err(InvalidHookReturnData)
        case Terms(approved, interestBips, termSeconds) =>
          if !approved then
            Err(BorrowRejected)
          else
            var maturity :- AddI64(now, termSeconds);
            var borrows :- Add64(pool.totalBorrows, amount);
            Ok(m.(pool := pool.(totalBorrows := borrows),
                  vault := m.vault - amount,
                  borrowers := m.borrowers[agent := BorrowerPosition(amount, interestBips, 0, now, now, Active,
                                                                     termSeconds, maturity)]))
  }

  function HandleRepay(m: Market, now: i64, agent: Pubkey, funds: u64): Outcome<Market> {
    if agent !in m.borrowers then
      Err(AccountNotInitialized)
    else
      var position := m.borrowers[agent];
      if position.status != Active then
        Err(BorrowNotActive)
      else
        var pool :- Accrue(m.pool, now);
        var elapsed :- SubI64(now, position.lastAccrual);
        var interest :- SimpleInterest(position.principal, position.interestBips, AsU128(elapsed));
        var accrued :- Add64(position.accruedInterest, AsU64(interest));
        var owed :- Add64(position.principal, accrued);
        if funds < owed then
          Err(TokenInsufficientFunds)
        else
          var vault :- Credit(m.vault, owed);
          var borrows :- Sub64(pool.totalBorrows, position.principal);
          Ok(m.(pool := pool.(totalBorrows := borrows),
                vault := vault,
                borrowers := m.borrowers[agent := position.(accruedInterest := accrued,
                                                            lastAccrual := now,
                                                            status := Repaid)]))
  }

  function HandleWithdraw(m: Market, now: i64, lender: Pubkey): Outcome<Market> {
    if lender !in m.lenders then
      Err(AccountNotInitialized)
    else
      var position := m.lenders[lender];
      var pool :- Accrue(m.pool, now);
      var payout :- PayoutFor(position.scaledDeposit, pool.scaleFactor);
      if m.vault < pool.accruedProtocolFees || m.vault - pool.accruedProtocolFees < payout then
        Err(InsufficientVaultBalance)
      else
        var deposits :- Sub64(pool.totalDeposits, position.totalDeposited);
        Ok(m.(pool := pool.(totalDeposits := deposits),
              vault := m.vault - payout,
              lenders := m.lenders - {lender}))
  }

  function HandleClaimProtocolFees(m: Market, now: i64, signer: Pubkey): Outcome<Market> {
    if signer != m.feeRecipient then
      Err(UnauthorizedFeeClaim)
    else
      var pool :- Accrue(m.pool, now);
      if pool.accruedProtocolFees == 0 then
        Ok(m.(pool := pool))
      else
        var vault :- Debit(m.vault, pool.accruedProtocolFees);
        Ok(m.(pool := pool.(accruedProtocolFees := 0), vault := vault))
  }

  function HandleTopUp(m: Market, amount: u64): Outcome<Market> {
    var vault :- Credit(m.vault, amount);
    Ok(m.(vault := vault))
  }

  function Execute(m: Market, now: i64, ix: Instruction): Outcome<Market> {
    match ix
    case Deposit(lender, amount, funds) => HandleDeposit(m, now, lender, amount, funds)
    case Borrow(agent, amount, hookProgram, answer) => HandleBorrow(m, now, agent, amount, hookProgram, answer)
    case Repay(agent, funds) => HandleRepay(m, now, agent, funds)
    case Withdraw(lender) => HandleWithdraw(m, now, lender)
    case ClaimProtocolFees(signer) => HandleClaimProtocolFees(m, now, signer)
    case TopUp(amount) => HandleTopUp(m, amount)
  }
}
