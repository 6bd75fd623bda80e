# Normandy: a Dafny model of the lending pool and the reputation hook

Two programs of the repository are modelled.

**The lending pool** (`programs/normandy-core`). Lenders deposit into a vault and hold scaled shares, agents borrow
against a hook's decision and repay principal with simple interest, and the pool books interest on its total borrows,
splits off a ten percent fee, and recomputes a 1e27 scale factor from all interest so far over the current deposits.
`Lending.dfy` gives each handler as a function on the accounts, with every checked operation, every `as u64` cast and
every error in the program's order. `LendingPool.dfy` is the program as it runs: a class whose methods update the
accounts in place, and whose `RunTransaction` undoes a failed instruction. `History.dfy` defines runs: any
instructions, in any order, some failing, under a clock that never goes back. It keeps a book of history totals read
off the accounts from outside (interest booked, principal-seconds, fees claimed, gifts to the vault).
`Accounting.dfy` and `Steps.dfy` hold the invariant of all runs and its proof. `Instructions.dfy` decides every
instruction in every reachable world: the error it gives, or all it changes. `Setup.dfy` says what the arguments of the
initializer mean for every later run. The other modules draw the consequences.

**The reputation hook** (`programs/normandy-hook-sati-score`). It decides by reading attestation accounts byte by
byte. `Attestation.dfy` gives the format once and proves both encoders against it: the one that appends, and the one
that writes at offsets into a zeroed buffer. `ScoreVerifier.dfy` proves what the verifier accepts over all byte
strings, `ReputationHook.dfy` what the loop over candidate accounts decides, and `HookedPool.dfy` what the hook's
answers make of the pool's loans. The hash function is a parameter of every statement.

Vocabulary: D is total deposits, B total borrows, V the vault balance, K is 10 000 times the seconds of a year
(`PERIOD`), r the pool's rate in basis points. A world is *reachable* when some run of a freshly initialized pool
leads to it. A pool is *young* while its rate times its age is at most one hundred percent. The *limit* is the largest
number of units whose product with 1e27 fits 128 bits, 340 282 366 920. *Idle seconds* are those an accrual skipped
before a loan was taken, weighted by the loan; *open seconds* are those the pool has booked and no repayment covers.

## Main results

* Pool-level credit and what borrowers pay are rounded separately. The gap between them is bounded on both sides, by
  under one unit per repaid loan above and under one unit per accrual below, once idle seconds are counted
  (`CreditIsCovered`, `CreditIsNotLost`, `GapIsBoundedInEveryRun`).
* With no loan open, any set of lenders and the fee claim can leave in any order and at any times exactly when no
  payout overflows and the vault holds what is owed; everybody's payment is fixed beforehand (`ExitsSucceedExactly`,
  `ExitOrderIrrelevant`, `EveryLeaverIsPaidTheSame`). Whether everybody can leave is decided, up to the rounding of
  repaid loans and accruals, by the sign of one quantity: the interest of open seconds plus the overshoot of lifetime
  payouts, less the gifts (`MissingIsShortage`, `WindDownCompletes`, `WindDownFails`). A gift to the vault of that size
  is enough (`TopUpLetsEveryoneOut`).
* Payouts above deposits so far, with the worth of all that is still open, stay within deposits and interest as long as
  no accrual shares out again interest that was already paid (`StepKeepsCredit`, `LifetimePayoutsWithinCredit`). Such
  an accrual keeps the bound exactly if what was paid is at most what floors and units short of par leave unclaimed:
  with everybody at par, at most one token per open position (`OvershootExactly`, `StepKeepsCreditExactly`).
* In a run under the reputation hook every loan was taken by one of the run's borrows, within the cap, at the pool's
  rate and term, and with an account shown to that borrow that the score program owned and that verified for the
  borrower at that moment (`EveryLoanHadAScore`).
* A pool initialized with given arguments obeys them after every run: window, reserves, hook program, rate and fee
  recipient (`InitializedPoolObeysItsTerms`); every instruction is decided, errors included (`DepositDecided` and the
  five beside it).
* The verifier accepts a byte string exactly when it is the encoding of an acceptable attestation followed by arbitrary
  bytes (`AcceptsExactlyEncodings`), and its verdict on any byte string follows from the bytes at fixed positions
  (`VerdictByBytes`).

## Where the code does less than its documentation promises

The model follows the code.

* `README.md:38` calls the scale factor compounding. It is recomputed from cumulative interest over current deposits
  and can go down; `AccrualLowersFactorExactly` says when, `FactorCanDrop` gives a run, and
  `WorthNeverDropsAfterAccrual` proves that between an effective accrual and the next deposit it does not.
* An accrual that finds no borrows or no deposits leaves the accrual time where it was, so idle seconds are charged to
  the next loan, which does not pay for them. `IdleYearLocksTheLender` gives a run after which every loan is repaid and
  the lender cannot leave; `IdleSecondsLockLendersOut` says how many such seconds lock lenders out of a pool within the
  limit whose lenders are at par and whose factor is recomputed, and `EveryoneCanLeaveExactly` is the exact condition.
* A position of more than 340 282 366 920 scaled units can be built by two deposits that each go through, and then can
  never be withdrawn (`LargePositionLocked`, `OversizedNeverWithdrawn`); `WithdrawSucceedsExactly` is the exact
  condition.
* Interest past that same limit, booked and pending, makes every accrual fail, and with it every instruction: nothing
  can be repaid or withdrawn while that interest fits 64 bits (`PastLimitCannotAccrue`, `FrozenForGood`).
  `LongLoanFreezesThePool` gives a run, and `AccrueSucceedsExactly` is the exact condition.
* A withdrawal does not reduce the interest that later accruals share out, so lifetime payouts can exceed deposits plus
  interest (`LifetimePayoutsCanExceedCredit`). While payouts, all together, are not above the deposits they closed, no
  accrual can bring this about (`StepKeepsCredit`). An effective accrual does so exactly when the excess paid before is
  more than it leaves unclaimed (`OvershootExactly`): never at an excess of zero or less, with the open positions at
  par always at one above their number, and in between as the floors fall. Lenders leaving while no loan is open set
  off no accrual: they take at most the deposits and interest of that time, on top of what was paid before
  (`LeaversArePaidWithinCredit`).
* In a pool with loans but no deposits the first of two deposits makes the second accrue, so splitting a deposit is not
  the same as making it at once (`SplittingCanMatter`); `SplitDepositExactly` says that this is the only case.

## Model

| member | source | states |
|---|---|---|
| LendingProgram.LendingPool.constructor | programs/normandy-core/src/instructions/initialize_pool.rs:58-87 | a new pool starts at scale factor RAY with all totals zero and the accrual clock at now |
| Setup.InitializedPoolKeepsItsTerms | programs/normandy-core/src/instructions/initialize_pool.rs:58-87 | the initializer makes a pool without a past, and after every run hook program, rate, term, ratio, window and fee recipient are its own arguments |
| Setup.InitializedPoolObeysItsTerms | programs/normandy-core/src/instructions/initialize_pool.rs:60-84 | after every run of an initialized pool no deposit succeeds past a non-zero window, a borrow needs the given program and leaves D·ratio/10 000 and the fees in the vault, accruals book at the given rate, and only the recipient claims |
| LendingProgram.LendingPool.AccrueInterest | programs/normandy-core/src/state/pool.rs:62-105 | the in-place accrual ends in the accrued pool value, or reports the same error |
| LendingProgram.LendingPool.MakeDeposit | programs/normandy-core/src/instructions/deposit.rs:38-87 | the in-place handler computes HandleDeposit on all accounts, or reports the same error |
| LendingProgram.LendingPool.MakeBorrow | programs/normandy-core/src/instructions/borrow.rs:47-189 | the in-place handler computes HandleBorrow on all accounts, or reports the same error |
| LendingProgram.LendingPool.MakeRepayment | programs/normandy-core/src/instructions/repay.rs:38-84 | the in-place handler computes HandleRepay on all accounts, or reports the same error |
| LendingProgram.LendingPool.MakeWithdrawal | programs/normandy-core/src/instructions/withdraw.rs:36-84 | the in-place handler computes HandleWithdraw on all accounts, or reports the same error |
| LendingProgram.LendingPool.ClaimFees | programs/normandy-core/src/instructions/claim_protocol_fees.rs:36-74 | the in-place handler computes HandleClaimProtocolFees on all accounts, or reports the same error |
| LendingProgram.LendingPool.RunTransaction | programs/normandy-core/src/lib.rs:18-61 | a transaction takes effect as a whole or leaves every account as it was |
| Instructions.DepositDecided | programs/normandy-core/src/instructions/deposit.rs:38-87 | in every reachable world a deposit gives the stated error, case by case, or changes exactly D, the vault and the lender's two sums |
| Instructions.BorrowDecided | programs/normandy-core/src/instructions/borrow.rs:47-189 | likewise a borrow: account in use, accrual, reserves, hook program, answer, maturity, aggregate, or the new loan |
| Instructions.RepaymentDecided | programs/normandy-core/src/instructions/repay.rs:38-84 | likewise a repayment: missing or repaid loan, overflows, funds, vault, or principal plus cast interest paid in and the loan closed |
| Instructions.WithdrawalDecided | programs/normandy-core/src/instructions/withdraw.rs:36-84 | likewise a withdrawal: missing position, overflows, vault less fees, or the cast worth paid out and the position closed |
| Instructions.ClaimDecided | programs/normandy-core/src/instructions/claim_protocol_fees.rs:27-71 | likewise a claim, with loans open or not: only the recipient, exactly when the vault holds all fees accrued by now, which leave it and are zeroed while nothing else changes |
| Instructions.TopUpDecided | tests/normandy-v1.ts:431-442 | a transfer into the vault changes the vault alone, or overflows it |
| Accruing.AccrualEffect | programs/normandy-core/src/state/pool.rs:66-102 | an accrual credits floor(B·r·seconds/K), a tenth of it as fees, and moves the clock only if it credits |
| Accruing.InterestFits | programs/normandy-core/src/state/pool.rs:74-78 | up to one hundred percent of simple interest no product overflows and the result is at most the principal |
| Accruing.AccruingOften | programs/normandy-core/src/state/pool.rs:62-105 | n accruals against the interest of the whole period: gross short by at most n-1, fees never larger, lenders' interest within n-1 |
| Accruing.OftenOrOnce | programs/normandy-core/src/state/pool.rs:62-105 | the same bounds against one actual accrual at the end of the period |
| Steps.StepKeepsInvariant | programs/normandy-core/src/lib.rs:18-61 | every instruction, successful or not, keeps the whole invariant |
| Steps.ReachableInvariant | programs/normandy-core/src/lib.rs:18-61 | the invariant holds after every run of every pool |
| BalanceSheet.AggregatesAreSums | programs/normandy-core/src/state/pool.rs:35-38 | D and B are the sums over open positions and active loans, the scale factor is at least RAY, and no lender holds more scaled units than tokens deposited |
| BalanceSheet.VaultLedger | programs/normandy-core/src/instructions/withdraw.rs:75-79 | V + B = D + interest repaid + gifts - fees claimed - excess paid to withdrawn lenders, in every reachable world |
| BalanceSheet.PrincipalSeconds | programs/normandy-core/src/state/pool.rs:63-68 | principal-seconds booked, not yet booked and left at repayment equal those of all loans plus idle ones, exactly |
| BalanceSheet.CreditIsCovered | programs/normandy-core/src/instructions/repay.rs:48-81 | K·(D + interest + fees) is at most K times the assets plus r times open seconds plus (K-1) per repaid loan |
| BalanceSheet.CreditIsNotLost | programs/normandy-core/src/state/pool.rs:73-92 | the same quantity is at least that, less (K-1) per accrual, while no cast dropped interest |
| BalanceSheet.GapIsBounded | tests/normandy-v1.ts:408-411 | in a young pool whose loans cost the pool's rate the rounding gap lies between the two bounds |
| BalanceSheet.InterestIsConserved | programs/normandy-core/src/state/pool.rs:80-92 | lender interest + unclaimed fees + claimed fees = gross interest, and nine times the fees are at most the lender interest |
| BalanceSheet.InterestNeverOverflows | programs/normandy-core/src/instructions/repay.rs:48-58 | in a young pool no interest product of the pool or of a loan overflows or is cut by its cast |
| BalanceSheet.UtilisationBound | programs/normandy-core/src/instructions/borrow.rs:58-70 | right after a borrow, B is at most D less the reserves (cast included) and unclaimed fees, plus net interest received, at any reserve ratio |
| BalanceSheet.BorrowSucceedsExactly | programs/normandy-core/src/instructions/borrow.rs:55-163 | the exact conditions under which a borrow goes through, at any reserve ratio |
| Shares.EntitlementsAreCovered | programs/normandy-core/src/state/pool.rs:94-100 | the excess of all lenders is at most the interest earned, so all open positions are worth at most D plus interest, stale factors included |
| Shares.NoOverflowWithinLimit | programs/normandy-core/src/state/pool.rs:80-100 | with D plus interest, pending interest included, at most 340 282 366 920 and fees fitting, the accrual succeeds, books what was pending, and every open payout after it is exact and at most the deposit plus all interest |
| Shares.WithdrawSucceedsExactly | programs/normandy-core/src/instructions/withdraw.rs:41-79 | a withdrawal succeeds exactly when scaled units times scale factor fit 128 bits and the vault covers the cast worth and the unclaimed fees; the cast worth is paid |
| Shares.DepositSucceedsExactly | programs/normandy-core/src/instructions/deposit.rs:42-84 | the exact conditions under which a deposit goes through |
| Shares.OversizedNeverWithdrawn | programs/normandy-core/src/instructions/withdraw.rs:44-47 | a position above the limit stays, and no withdrawal of it succeeds after any later run |
| Shares.ShareRoundTrip | programs/normandy-core/src/instructions/deposit.rs:53-56 | a deposit valued at the factor it was made at is worth between amount - ceil((factor-1)/RAY) and amount |
| Shares.ParExactly | programs/normandy-core/src/instructions/deposit.rs:53-56 | a deposit buys as many units as tokens exactly at factor RAY, or when it is zero |
| Shares.DepositKeepsParExactly | programs/normandy-core/src/instructions/deposit.rs:75-78 | a deposit keeps a position's distance from par exactly at factor RAY, or when it is zero |
| Shares.ParNeverLoses | programs/normandy-core/src/instructions/withdraw.rs:44-47 | after any run in which all deposits of a lender met factor RAY, the lender is worth at least the deposits, and within the limit is paid at least them |
| Shares.SplitDepositExactly | programs/normandy-core/src/instructions/deposit.rs:47-84 | when a deposit goes through, so do its n parts in turn, ending in the same accounts but for up to n-1 fewer units, exactly unless the pool has loans, no deposits and time to accrue, and a part before the last is not zero |
| Shares.AccrueSucceedsExactly | programs/normandy-core/src/state/pool.rs:62-105 | the exact conditions under which an accrual succeeds, on any clock: clock difference, interest product, interest within the limit, scale factor and fees |
| Shares.BackwardClockFails | programs/normandy-core/src/state/pool.rs:63-76 | on a clock that went back the sign-extended elapsed time makes an effective accrual overflow once B·r is at least 2 |
| Shares.RepaySucceedsExactly | programs/normandy-core/src/instructions/repay.rs:43-81 | an active loan can be repaid exactly when clock difference and interest product fit and the payer brings principal plus floored and cast interest, which is what the vault receives |
| Progress.AccrualLowersFactorExactly | programs/normandy-core/src/state/pool.rs:94-100 | an effective accrual lowers the factor exactly when (interest so far + what this accrual credits to lenders)·RAY is below (factor - RAY)·D |
| Progress.EffectiveStepIsCurrent | programs/normandy-core/src/state/pool.rs:94-100 | after any step with an effective accrual, other than a deposit, the factor promises no more than the interest earned |
| Progress.FactorNeverDrops | programs/normandy-core/src/state/pool.rs:94-100 | from such a factor on, along any run without a successful deposit, the factor and every open position's worth never go down |
| Progress.WorthNeverDropsAfterAccrual | programs/normandy-core/src/state/pool.rs:94-100 | from any effective accrual to the next deposit no open position loses worth |
| Progress.AccrualKeepsFailing | programs/normandy-core/src/state/pool.rs:70-100 | an accrual that fails at one time fails at every later one, until the interest outgrows 64 bits |
| Progress.PastLimitCannotAccrue | programs/normandy-core/src/state/pool.rs:87-97 | booked and pending interest above 340 282 366 920 makes the accrual fail, while the pending interest fits 64 bits |
| Progress.FrozenForGood | programs/normandy-core/src/state/pool.rs:94-97 | once an accrual fails no later run changes anything but the vault, and every instruction but a transfer into it fails, until the interest outgrows 64 bits |
| Progress.ClosedWindowStopsDeposits | programs/normandy-core/src/instructions/deposit.rs:42-45 | once the window has closed no later run contains a successful deposit |
| Progress.StepMovesLoanForward | programs/normandy-core/src/instructions/borrow.rs:19-25 | only the agent's borrow or repayment moves a loan, by one phase, and its terms never change |
| Progress.LoansMoveForward | programs/normandy-core/src/instructions/repay.rs:43-81 | over any run a loan goes from absent to active to repaid and never back |
| Progress.SubtractionsNeverFail | programs/normandy-core/src/instructions/repay.rs:79-81 | the checked subtractions of repay and withdraw cannot fail in a reachable world |
| Lifetime.StepKeepsLifetime | programs/normandy-core/src/instructions/withdraw.rs:77-79 | before rounding, excess paid so far plus all open excess stays within the interest earned in every step that does not accrue after net excess was paid |
| Lifetime.LifetimePayoutsWithinCredit | programs/normandy-core/src/state/pool.rs:94-100 | over any run without such a step, excess paid plus the worth of all open positions is at most D plus interest |
| Lifetime.LifetimeAfterAccrual | programs/normandy-core/src/state/pool.rs:94-100 | before rounding, that bound holds after an effective accrual when no excess was paid before, and fails once the excess paid outweighs the open positions' distance from par |
| Lifetime.LifetimeExactlyAtPar | programs/normandy-core/src/state/pool.rs:94-100 | before rounding and with all open positions at par it holds exactly when no excess was paid before |
| Lifetime.StepKeepsLifetimeExactly | programs/normandy-core/src/state/pool.rs:94-100 | before rounding and at par, a claim, loan or repayment keeps the bound exactly unless it accrues after net excess was paid |
| Lifetime.StepKeepsCredit | programs/normandy-core/src/instructions/withdraw.rs:44-79 | in tokens, excess paid plus the worth of all open positions stays within D plus interest in every step, deposits and cut payouts included, that does not accrue after net excess was paid |
| Lifetime.OvershootExactly | programs/normandy-core/src/state/pool.rs:94-100 | in tokens, after an effective accrual the bound holds exactly when the excess paid is at most what D plus interest leave unclaimed at the recomputed factor, which lies between zero and the distance from par plus one token per position, and at par is at most one token per position |
| Lifetime.StepKeepsCreditExactly | programs/normandy-core/src/instructions/withdraw.rs:44-79 | the same for every whole step that is no deposit and whose payout no cast cuts |
| WindDown.ExitsSucceedExactly | programs/normandy-core/src/instructions/withdraw.rs:36-84 | any exits with no loan open succeed exactly when no payout overflows and the vault holds fees and payouts; the end depends only on who left |
| WindDown.ExitOrderIrrelevant | programs/normandy-core/src/instructions/withdraw.rs:36-84 | two orders of the same exits, at any times, have the same success and the same end |
| WindDown.EveryLeaverIsPaidTheSame | programs/normandy-core/src/instructions/withdraw.rs:44-47 | a leaver's payment is fixed at the start, whoever leaves before |
| WindDown.LeaversArePaidWithinCredit | programs/normandy-core/src/instructions/withdraw.rs:75-79 | apart from claimed fees, all leavers together are paid at most D plus interest at the start |
| WindDown.EveryoneCanLeaveExactly | programs/normandy-core/src/instructions/withdraw.rs:49-52 | everybody and the fees can leave exactly when no payout overflows and the vault holds the total |
| WindDown.ToppedUpPoolIsSolvent | tests/normandy-v1.ts:431-442 | with no loan open and gifts of (K-1) per repaid loan plus r·idle plus K·excess, over K, the vault holds D + interest + fees |
| WindDown.MissingIsShortage | programs/normandy-core/src/instructions/withdraw.rs:49-52 | with no loan open, K times what lenders are worth and the fees miss in the vault is r·open seconds + K·(overshoot - gifts), within (K-1) per repaid loan and per accrual |
| WindDown.WindDownCompletes | programs/normandy-core/src/instructions/claim_protocol_fees.rs:40-71 | without a shortage any exits in any order at any later times all succeed |
| WindDown.WindDownFails | programs/normandy-core/src/instructions/withdraw.rs:49-52 | with a shortage above (K-1) per accrual no order of exits lets all lenders out |
| WindDown.GiftCoversShortage | tests/normandy-v1.ts:431-442 | gifts of (K-1) per repaid loan plus r·idle, and K·excess paid only if lifetime payouts overshoot, cover the shortage |
| WindDown.RoundingAndIdleGiftSuffices | tests/normandy-v1.ts:431-442 | while lifetime payouts are within deposits and interest, gifts for rounding and idle seconds alone let everybody out |
| WindDown.IdleSecondsLockLendersOut | programs/normandy-core/src/state/pool.rs:66-68 | at par, at a recomputed factor and with loans within the rate, r·open seconds and excess paid above gifts, (K-1) per accrual and K per lender mean that not all lenders can leave |
| WindDown.TopUpLetsEveryoneOut | tests/normandy-v1.ts:431-442 | one transfer as large as the shortage and its rounding into the vault lets everybody out |
| Witnesses.IdleYearLocksTheLender | programs/normandy-core/src/state/pool.rs:66-68 | a run after which every loan is repaid and the only lender cannot leave at any later time |
| Witnesses.FactorCanDrop | programs/normandy-core/src/state/pool.rs:94-100 | a run after which the next accrual lowers the scale factor |
| Witnesses.LargePositionLocked | programs/normandy-core/src/instructions/withdraw.rs:44-47 | a run of two deposits after which the withdrawal overflows at any later time although the vault is full |
| Witnesses.LongLoanFreezesThePool | programs/normandy-core/src/state/pool.rs:94-97 | a run with one loan of thirteen years after which, for a million years, neither it nor the deposit can be paid back |
| Witnesses.LifetimePayoutsCanExceedCredit | programs/normandy-core/src/instructions/withdraw.rs:77-79 | a run in which excess already paid plus the worth still open exceeds deposits plus interest |
| Witnesses.SplittingCanMatter | programs/normandy-core/src/instructions/deposit.rs:47-84 | a run that empties a pool with a loan open, after which two deposits differ from one of their sum |
| AttestationFormat.BuildSatv3Payload | programs/normandy-hook-sati-score/src/instructions/on_borrow.rs:238-257 | the appending payload encoder puts every field, zero data hash, JSON content type, content length and content at its position |
| AttestationFormat.BuildAttestationBytes | programs/normandy-hook-sati-score/src/instructions/on_borrow.rs:260-279 | the appending account encoder puts every field, the payload, zero signer, expiry and zero token account at its position |
| AttestationFormat.BuildSatv3PayloadAtOffsets | scripts/build-satscore-fixtures.ts:73-93 | the offset-writing payload encoder gives the same bytes at the same positions, or a range error when the length needs more than 32 bits |
| AttestationFormat.BuildSasAttestationBytesAtOffsets | scripts/build-satscore-fixtures.ts:98-118 | the offset-writing account encoder gives the same bytes at the same positions, or a range error when the length needs more than 32 bits |
| ByteOrder.ReadU32ByByte | programs/normandy-hook-sati-score/src/instructions/on_borrow.rs:146-150 | a 32-bit length is read with the first byte weighing one and the last 2^24 |
| ByteOrder.ReadI64ByByte | programs/normandy-hook-sati-score/src/instructions/on_borrow.rs:194-199 | a signed 64-bit number is read with the first byte weighing one, in two's complement |
| ScoreVerifier.VerifyScoreBytes | programs/normandy-hook-sati-score/src/instructions/on_borrow.rs:107-210 | the verifier with its provider search loop computes Verify and never reads out of range |
| ScoreVerifier.EncodedIsJudged | programs/normandy-hook-sati-score/src/instructions/on_borrow.rs:107-210 | over encoded bytes with any suffix the verdict, errors included, is the decision on the fields |
| ScoreVerifier.VerdictOnAnyBytes | programs/normandy-hook-sati-score/src/instructions/on_borrow.rs:113-163 | on any byte string the verdict is the decision on the fields found in it; when it is not framed, the error is the provider's if the search found nobody and the layout's otherwise |
| ScoreVerifier.VerdictByBytes | programs/normandy-hook-sati-score/src/instructions/on_borrow.rs:107-210 | acceptance and each error of the verifier on any byte string, from the bytes at fixed positions, with the nonce as the hash of provider then agent |
| ScoreVerifier.AcceptsExactlyEncodings | programs/normandy-hook-sati-score/src/instructions/on_borrow.rs:107-210 | acceptance holds exactly for encodings, up to a suffix, of attestations the decision accepts |
| ScoreVerifier.FirstMatchIsFirst | programs/normandy-hook-sati-score/src/instructions/on_borrow.rs:133-143 | the provider found is the first of the allowed list that, followed by the agent, hashes to the attestation's nonce |
| ScoreVerifier.RoundTrip | programs/normandy-hook-sati-score/src/instructions/on_borrow.rs:290-338 | an attestation encoded with the hash of the 64 bytes of provider and agent verifies exactly when the provider is the first match, the outcome reaches the threshold and the expiry tests pass |
| ScoreVerifier.AcceptanceIsStable | programs/normandy-hook-sati-score/src/constants.rs:21-49 | acceptance survives any change of unread fields, any suffix and any earlier time |
| ScoreVerifier.AcceptanceSurvivesSuffix | programs/normandy-hook-sati-score/src/instructions/on_borrow.rs:145-160 | appending bytes to any accepted byte string keeps it accepted for the same provider |
| ScoreVerifier.ProviderOrderIrrelevant | programs/normandy-hook-sati-score/src/instructions/on_borrow.rs:133-143 | when nonces do not collide the verdict depends only on the set of allowed providers |
| ReputationHook.HandleOnBorrow | programs/normandy-hook-sati-score/src/instructions/on_borrow.rs:31-97 | the candidate loop approves exactly within the cap with an owned, readable, verifying account, with the rate and term asked for, and otherwise reports the cap, the lack of accounts or the last account's failure |
| ReputationHook.ApprovesExactly | programs/normandy-hook-sati-score/src/instructions/on_borrow.rs:43-81 | approval holds exactly for amounts within the cap with an owned, readable, verifying account |
| ReputationHook.DecidesExactly | programs/normandy-hook-sati-score/src/instructions/on_borrow.rs:43-87 | an approval carries exactly the rate and term asked for; a refusal blames the cap, the lack of accounts, or the last account's own failure |
| HookedPool.LoansNeedAScore | programs/normandy-core/src/instructions/borrow.rs:127-163 | a loan under this hook is within the cap, backed by a verifying account, costs the pool's rate, and has a maturity date |
| HookedPool.HookedBorrowSucceedsExactly | programs/normandy-core/src/instructions/borrow.rs:55-163 | a borrow under this hook succeeds exactly when the pool's conditions hold, the amount is within the cap, a shown account is owned and verifies, and now plus the pool's term fits; the loan is then at the pool's rate and term |
| HookedPool.RunKeepsPrice | programs/normandy-hook-sati-score/src/instructions/on_borrow.rs:83-87 | in a run whose approvals quote the pool's rate every loan costs that rate |
| HookedPool.GapIsBoundedInEveryRun | tests/normandy-v1.ts:408-411 | the rounding gap is bounded on both sides after every such run of bounded age |
| HookedPool.EveryLoanHadAScore | programs/normandy-hook-sati-score/src/instructions/on_borrow.rs:43-87 | every loan at the end of a run whose borrows the hook answers was taken by a successful borrow of that run, at its time and amount, within the cap, at the pool's rate and term, and with an account among those of that borrow that the score program owned and that verified |
| HookedPool.GapIsBoundedUnderHook | programs/normandy-hook-sati-score/src/instructions/on_borrow.rs:83-87 | under the hook's own decisions the rounding gap is bounded on both sides after every run of bounded age |

## Left out

- Cross-program calls, return-data parsing, account seeds, bumps and rent: a hook's answer is an argument of borrow, and
  a token transfer is a checked change of the vault balance, with the payer's funds as an argument.
- Receiving accounts: a payout or a loan never overflows the account it is sent to.
- Token accounts that coincide with the vault: users' accounts are distinct from it.
- `initialize_protocol`, both hooks' `initialize` and the fixed-term hook's comparisons: straight-line code.
- Fields nothing depends on: `scaled_borrow`, `borrow_scale_factor`, `entry_scale_factor`, `deposited_at`,
  `position_mode`, `max_interest_bips` and `max_term_seconds`, which equal the minima, and `is_closed`, which is never
  set.
- Keccak-256: the hash is any function from byte strings to 32 bytes. `ProviderOrderIrrelevant` assumes that two
  different allowed providers do not share a nonce for the agent.
- Runs on a clock that goes back: runs are chronological. `AccrueSucceedsExactly` and `BackwardClockFails` cover single
  accruals on such a clock.
- Borsh and base58 encodings, fixture files, integration scripts and migrations.
- Address arithmetic on a 64-bit `usize`: the checked additions on a 32-bit length cannot overflow there.
- What an accrual does once its interest no longer fits 64 bits and its cast cuts it: `AccrueSucceedsExactly` covers it,
  `AccrualKeepsFailing` and `FrozenForGood` end there.
