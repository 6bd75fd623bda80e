/** The program as it runs: handlers that update the pool's accounts in place. */
module LendingProgram {
  import opened Machine
  import opened Lending

  class LendingPool {
    const hookProgram: Pubkey
    const minInterestBips: u16
    const reserveRatioBips: u16
    const depositWindowEnd: i64
    const minTermSeconds: i64
    const feeRecipient: Pubkey

    var scaleFactor: u128
    var totalInterestEarned: u64
    var lastAccrual: i64
    var totalDeposits: u64
    var totalBorrows: u64
    var accruedProtocolFees: u64

    var vault: u64
    var lenders: map<Pubkey, LenderPosition>
    var borrowers: map<Pubkey, BorrowerPosition>

    /** The pool account alone, as a value. */
    function PoolValue(): Pool
      reads this
    {
      Pool(hookProgram, scaleFactor, totalInterestEarned, lastAccrual, minInterestBips, reserveRatioBips,
           totalDeposits, totalBorrows, accruedProtocolFees, depositWindowEnd, minTermSeconds)
    }

    /** All accounts as a value. */
    function Value(): Market
      reads this
    {
      Market(PoolValue(), vault, lenders, borrowers, feeRecipient)
    }

    constructor (now: i64, hookProgram: Pubkey, interestBips: u16, termSeconds: i64, reserveRatioBips: u16,
                 depositWindowEnd: i64, feeRecipient: Pubkey)
      ensures Value() == HandleInitializePool(now, hookProgram, interestBips, termSeconds, reserveRatioBips,
                                              depositWindowEnd, feeRecipient)
    {
      this.hookProgram := hookProgram;
      this.feeRecipient := feeRecipient;
      scaleFactor := RAY;
      totalInterestEarned := 0;
      lastAccrual := now;
      minInterestBips := interestBips;
      minTermSeconds := termSeconds;
      this.reserveRatioBips := reserveRatioBips;
      totalDeposits := 0;
      totalBorrows := 0;
      accruedProtocolFees := 0;
      this.depositWindowEnd := depositWindowEnd;
      vault := 0;
      lenders := map[];
      borrowers := map[];
    }

    /** Accrues in place. An error can leave some fields already written. */
    method AccrueInterest(now: i64) returns (r: Outcome<()>)
      modifies this`scaleFactor, this`totalInterestEarned, this`accruedProtocolFees, this`lastAccrual
      ensures match Accrue(old(PoolValue()), now)
              case Ok(accrued) => r.Ok? && PoolValue() == accrued
              case Err(error) => r == Err(error)
    {
      var difference :- SubI64(now, lastAccrual);
      var elapsed := AsU128(difference);
      if elapsed == 0 || totalBorrows == 0 || totalDeposits == 0 {
        return Ok(());
      }
      var gross :- SimpleInterest(totalBorrows, minInterestBips, elapsed);
      var feeProduct :- Mul128(gross, PROTOCOL_FEE_BIPS);
      var cut: u128 := feeProduct / BIP_DENOMINATOR;
      totalInterestEarned :- Add64(totalInterestEarned, AsU64(gross - cut));
      accruedProtocolFees :- Add64(accruedProtocolFees, AsU64(cut));
      var growth :- Mul128(totalInterestEarned, RAY);
      var perUnit :- Div128(growth, totalDeposits);
      scaleFactor :- Add128(RAY, perUnit);
      lastAccrual := now;
      return Ok(());
    }

    method MakeDeposit(now: i64, lender: Pubkey, amount: u64, funds: u64) returns (r: Outcome<()>)
      modifies this
      ensures match HandleDeposit(old(Value()), now, lender, amount, funds)
              case Ok(after) => r.Ok? && Value() == after
              case Err(error) => r == Err(error)
    {
      if depositWindowEnd != 0 && now > depositWindowEnd {
        return Err(DepositWindowClosed);
      }
      var _ :- AccrueInterest(now);
      var shares :- SharesFor(amount, scaleFactor);
      if funds < amount {
        return Err(TokenInsufficientFunds);
      }
      vault :- Credit(vault, amount);
      var position := if lender in lenders then lenders[lender] else LenderPosition(0, 0);
      var scaled :- Add64(position.scaledDeposit, shares);
      position := position.(scaledDeposit := scaled);
      var nominal :- Add64(position.totalDeposited, amount);
      position := position.(totalDeposited := nominal);
      lenders := lenders[lender := position];
      totalDeposits :- Add64(totalDeposits, amount);
      return Ok(());
    }

    method MakeBorrow(now: i64, agent: Pubkey, amount: u64, hookProgram: Pubkey, answer: HookAnswer)
      returns (r: Outcome<()>)
      modifies this
      ensures match HandleBorrow(old(Value()), now, agent, amount, hookProgram, answer)
              case Ok(after) => r.Ok? && Value() == after
              case Err(error) => r == Err(error)
    {
      if agent in borrowers {
        return Err(AccountAlreadyInUse);
      }
      var _ :- AccrueInterest(now);
      var available :- Available(PoolValue(), vault);
      if available < amount {
        return Err(ReserveRatioBreached);
      }
      if hookProgram != this.hookProgram {
        return Err(InvalidHookProgram);
      }
      match answer {
        case CallFailed => return Err(HookFailed);
        case NoReadableData => return Err(InvalidHookReturnData);
        case Terms(approved, interestBips, termSeconds) =>
          if !approved {
            return Err(BorrowRejected);
          }
          var maturity :- AddI64(now, termSeconds);
          borrowers := borrowers[agent := BorrowerPosition(amount, interestBips, 0, now, now, Active, termSeconds,
                                                           maturity)];
      }
      totalBorrows :- Add64(totalBorrows, amount);
      vault := vault - amount;
      return Ok(());
    }

    method MakeRepayment(now: i64, agent: Pubkey, funds: u64) returns (r: Outcome<()>)
      modifies this
      ensures match HandleRepay(old(Value()), now, agent, funds)
              case Ok(after) => r.Ok? && Value() == after
              case Err(error) => r == Err(error)
    {
      if agent !in borrowers {
        return Err(AccountNotInitialized);
      }
      var position := borrowers[agent];
      if position.status != Active {
        return Err(BorrowNotActive);
      }
      var _ :- AccrueInterest(now);
      var elapsed :- SubI64(now, position.lastAccrual);
      var interest :- SimpleInterest(position.principal, position.interestBips, AsU128(elapsed));
      var accrued :- Add64(position.accruedInterest, AsU64(interest));
      position := position.(accruedInterest := accrued, lastAccrual := now);
      borrowers := borrowers[agent := position];
      var owed :- Add64(position.principal, position.accruedInterest);
      if funds < owed {
        return Err(TokenInsufficientFunds);
      }
      vault :- Credit(vault, owed);
      borrowers := borrowers[agent := position.(status := Repaid)];
      totalBorrows :- Sub64(totalBorrows, position.principal);
      return Ok(());
    }

    method MakeWithdrawal(now: i64, lender: Pubkey) returns (r: Outcome<()>)
      modifies this
      ensures match HandleWithdraw(old(Value()), now, lender)
              case Ok(after) => r.Ok? && Value() == after
              case Err(error) => r == Err(error)
    {
      if lender !in lenders {
        return Err(AccountNotInitialized);
      }
      var position := lenders[lender];
      var _ :- AccrueInterest(now);
      var payout :- PayoutFor(position.scaledDeposit, scaleFactor);
      if vault < accruedProtocolFees || vault - accruedProtocolFees < payout {
        return Err(InsufficientVaultBalance);
      }
      vault := vault - payout;
      totalDeposits :- Sub64(totalDeposits, position.totalDeposited);
      lenders := lenders - {lender};
      return Ok(());
    }

    method ClaimFees(now: i64, signer: Pubkey) returns (r: Outcome<()>)
      modifies this
      ensures match HandleClaimProtocolFees(old(Value()), now, signer)
              case Ok(after) => r.Ok? && Value() == after
              case Err(error) => r == Err(error)
    {
      if signer != feeRecipient {
        return Err(UnauthorizedFeeClaim);
      }
      var _ :- AccrueInterest(now);
      if accruedProtocolFees == 0 {
        return Ok(());
      }
      vault :- Debit(vault, accruedProtocolFees);
      accruedProtocolFees := 0;
      return Ok(());
    }

    /** Writes the changeable accounts back, as the runtime does for a failed transaction. */
    method Restore(before: Market)
      requires before.pool.hookProgram == hookProgram
      requires before.pool.minInterestBips == minInterestBips
      requires before.pool.reserveRatioBips == reserveRatioBips
      requires before.pool.depositWindowEnd == depositWindowEnd
      requires before.pool.minTermSeconds == minTermSeconds
      requires before.feeRecipient == feeRecipient
      modifies this
      ensures Value() == before
    {
      scaleFactor := before.pool.scaleFactor;
      totalInterestEarned := before.pool.totalInterestEarned;
      lastAccrual := before.pool.lastAccrual;
      totalDeposits := before.pool.totalDeposits;
      totalBorrows := before.pool.totalBorrows;
      accruedProtocolFees := before.pool.accruedProtocolFees;
      vault := before.vault;
      lenders := before.lenders;
      borrowers := before.borrowers;
    }

    /** One transaction: either the whole instruction takes effect or nothing does. */
    method RunTransaction(now: i64, ix: Instruction) returns (r: Outcome<()>)
      modifies this
      ensures match Execute(old(Value()), now, ix)
              case Ok(after) => r.Ok? && Value() == after
              case Err(error) => r == Err(error) && Value() == old(Value())
    {
      var before := Value();
      match ix {
        case Deposit(lender, amount, funds) =>
          r := MakeDeposit(now, lender, amount, funds);
        case Borrow(agent, amount, hook, answer) =>
          r := MakeBorrow(now, agent, amount, hook, answer);
        case Repay(agent, funds) =>
          r := MakeRepayment(now, agent, funds);
        case Withdraw(lender) =>
          r := MakeWithdrawal(now, lender);
        case ClaimProtocolFees(signer) =>
          r := ClaimFees(now, signer);
        case TopUp(amount) =>
          var credited := Credit(vault, amount);
          if credited.Ok? {
            vault := credited.value;
            r := Ok(());
          } else {
            r := Err(credited.error);
          }
      }
      if r.Err? {
        Restore(before);
      }
    }
  }
}
