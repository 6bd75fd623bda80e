/** Closing a pool: once no loan is open, who can leave, in which order, and with how much. */
module WindDown {
  import opened Machine
  import opened Rounding
  import opened Totals
  import opened Lending
  import opened History
  import opened Accounting
  import opened Steps
  import opened Shares
  import opened BalanceSheet
  import opened Lifetime

  /** All transactions in turn, each of which must succeed. */
  function ExecuteAll(m: Market, es: seq<Event>): Outcome<Market>
    decreases |es|
  {
    if es == [] then
      Ok(m)
    else
      var after :- Execute(m, es[0].now, es[0].ix);
      ExecuteAll(after, es[1..])
  }

  /** Lenders leaving, each at most once, and fee claims by the recipient, at times the clock can subtract. */
  ghost predicate AreExits(m: Market, es: seq<Event>) {
    && (forall i :: 0 <= i < |es| ==>
          && SubI64(es[i].now, m.pool.lastAccrual).Ok?
          && (es[i].ix.Withdraw? || es[i].ix == ClaimProtocolFees(m.feeRecipient))
          && (es[i].ix.Withdraw? ==> es[i].ix.lender in m.lenders))
    && (forall i, j :: 0 <= i < j < |es| && es[i].ix.Withdraw? ==> es[j].ix != es[i].ix)
  }

  function Leavers(es: seq<Event>): set<Pubkey> {
    set i | 0 <= i < |es| && es[i].ix.Withdraw? :: es[i].ix.lender
  }

  predicate Claims(es: seq<Event>) {
    exists i :: 0 <= i < |es| && es[i].ix.ClaimProtocolFees?
  }

  /** No open principal. */
  ghost predicate Quiet(m: Market, clock: i64) {
    && Consistent(m, clock) && ExcessCovered(m)
    && m.pool.totalBorrows == 0
  }

  function Payables(lenders: map<Pubkey, LenderPosition>, scaleFactor: int): Amounts {
    map l | l in lenders :: Payable(lenders[l], scaleFactor)
  }

  /** What the given lenders are paid together. */
  ghost function Owed(m: Market, leavers: set<Pubkey>): int {
    Total(Payables(m.lenders, m.pool.scaleFactor)) - Total(Payables(m.lenders - leavers, m.pool.scaleFactor))
  }

  /** No payout of these lenders overflows. */
  ghost predicate Computable(m: Market, leavers: set<Pubkey>) {
    forall l :: l in leavers && l in m.lenders ==> m.lenders[l].scaledDeposit * m.pool.scaleFactor < U128_MODULUS
  }

  lemma OwedNothing(m: Market)
    ensures Owed(m, {}) == 0
  {
    assert m.lenders - {} == m.lenders;
  }

  lemma OwedOneMore(m: Market, l: Pubkey, others: set<Pubkey>)
    requires l in m.lenders && l !in others
    ensures Owed(m, others + {l}) == Owed(m, others) + Payable(m.lenders[l], m.pool.scaleFactor)
    ensures Owed(m, others + {l})
         == Payable(m.lenders[l], m.pool.scaleFactor) + Owed(m.(lenders := m.lenders - {l}), others)
  {
    var sf := m.pool.scaleFactor;
    var rest := m.lenders - others;
    assert m.lenders - (others + {l}) == rest - {l};
    assert Payables(rest - {l}, sf) == Payables(rest, sf) - {l};
    TotalRemove(Payables(rest, sf), l);
    assert m.lenders - {l} - others == rest - {l};
    assert Payables(m.lenders - {l}, sf) == Payables(m.lenders, sf) - {l};
    TotalRemove(Payables(m.lenders, sf), l);
  }

  lemma PayableWithinWorth(p: LenderPosition, scaleFactor: int)
    requires RAY <= scaleFactor
    ensures 0 <= Payable(p, scaleFactor) <= Entitlement(p, scaleFactor)
  {
  }

  lemma PayablesAreCovered(m: Market, clock: i64)
    requires Consistent(m, clock) && ExcessCovered(m)
    ensures Total(Payables(m.lenders, m.pool.scaleFactor)) <= m.pool.totalDeposits + m.pool.totalInterestEarned
  {
    var sf := m.pool.scaleFactor;
    forall l | l in m.lenders
      ensures Payables(m.lenders, sf)[l] <= Entitlements(m.lenders, sf)[l]
    {
      PayableWithinWorth(m.lenders[l], sf);
    }
    TotalMonotone(Payables(m.lenders, sf), Entitlements(m.lenders, sf));
    CoveredEntitlements(m, clock);
  }

  lemma {:induction false} OwedIsCovered(m: Market, clock: i64, leavers: set<Pubkey>)
    requires Consistent(m, clock) && ExcessCovered(m)
    ensures 0 <= Owed(m, leavers) <= m.pool.totalDeposits + m.pool.totalInterestEarned
    decreases leavers
  {
    var sf := m.pool.scaleFactor;
    PayablesAreCovered(m, clock);
    TotalNonNegative(Payables(m.lenders - leavers, sf));
    if leavers == {} {
      OwedNothing(m);
    } else {
      var l :| l in leavers;
      OwedIsCovered(m, clock, leavers - {l});
      if l in m.lenders {
        PayableWithinWorth(m.lenders[l], sf);
        OwedOneMore(m, l, leavers - {l});
        assert leavers - {l} + {l} == leavers;
      } else {
        assert m.lenders - leavers == m.lenders - (leavers - {l});
      }
    }
  }

  /** With nothing lent out, time changes nothing. */
  lemma QuietAccrual(p: Pool, now: i64)
    requires p.totalBorrows == 0 && SubI64(now, p.lastAccrual).Ok?
    ensures Accrue(p, now) == Ok(p)
  {
  }

  /** One lender leaving a quiet pool. */
  lemma QuietWithdraw(m: Market, clock: i64, now: i64, l: Pubkey)
    requires Quiet(m, clock) && SubI64(now, m.pool.lastAccrual).Ok? && l in m.lenders
    ensures var paid, r := Payable(m.lenders[l], m.pool.scaleFactor), HandleWithdraw(m, now, l);
            && 0 <= paid
            && (r.Ok? <==> Computable(m, {l}) && m.pool.accruedProtocolFees + paid <= m.vault)
            && (r.Ok? ==>
                  && Quiet(r.value, clock)
                  && r.value.vault == m.vault - paid
                  && r.value.lenders == m.lenders - {l}
                  && r.value.borrowers == m.borrowers
                  && r.value.feeRecipient == m.feeRecipient
                  && r.value.pool == m.pool.(totalDeposits := r.value.pool.totalDeposits))
  {
    QuietAccrual(m.pool, now);
    PayoutFailsExactly(m.lenders[l], m.pool.scaleFactor);
    EntitlementBounds(m.lenders[l], m.pool.scaleFactor);
    TotalNonNegative(Nominal(m.lenders));
    assert Nominal(m.lenders)[l] == m.lenders[l].totalDeposited;
    LenderRemoved(m.lenders, l, m.pool.scaleFactor);
    var r := HandleWithdraw(m, now, l);
    if r.Ok? {
      assert ExcessOf(m.lenders[l], m.pool.scaleFactor) >= 0;
      assert ExcessCovered(r.value);
      assert Consistent(r.value, clock);
    }
  }

  /** The fee recipient claiming from a quiet pool. */
  lemma QuietClaim(m: Market, clock: i64, now: i64)
    requires Quiet(m, clock) && SubI64(now, m.pool.lastAccrual).Ok?
    ensures var r := HandleClaimProtocolFees(m, now, m.feeRecipient);
            && (r.Ok? <==> m.pool.accruedProtocolFees <= m.vault)
            && (r.Ok? ==>
                  && Quiet(r.value, clock)
                  && r.value == m.(vault := r.value.vault, pool := m.pool.(accruedProtocolFees := 0))
                  && r.value.vault == m.vault - m.pool.accruedProtocolFees)
  {
  }

  lemma ExitsAfterFirst(m: Market, es: seq<Event>, after: Market)
    requires AreExits(m, es) && es != []
    requires after.pool.lastAccrual == m.pool.lastAccrual && after.feeRecipient == m.feeRecipient
    requires after.lenders == if es[0].ix.Withdraw? then m.lenders - {es[0].ix.lender} else m.lenders
    ensures AreExits(after, es[1..])
    ensures es[0].ix.Withdraw? ==>
              es[0].ix.lender !in Leavers(es[1..]) && Leavers(es) == Leavers(es[1..]) + {es[0].ix.lender}
    ensures !es[0].ix.Withdraw? ==> Leavers(es) == Leavers(es[1..])
    ensures Claims(es) <==> es[0].ix.ClaimProtocolFees? || Claims(es[1..])
  {
  }

  lemma ComputableOneByOne(m: Market, after: Market, l: Pubkey, others: set<Pubkey>)
    requires l !in others && after.lenders == m.lenders - {l} && after.pool.scaleFactor == m.pool.scaleFactor
    ensures Computable(m, others + {l}) <==> Computable(m, {l}) && Computable(after, others)
  {
  }

  /**
   Any exits from a quiet pool, in any order and at any times, all succeed
   exactly when no leaver's payout overflows and the vault holds the fees and
   what the leavers are paid; and where they lead depends only on who left
   and whether fees were claimed.
   */
  lemma {:induction false} ExitsSucceedExactly(m: Market, clock: i64, es: seq<Event>)
    requires Quiet(m, clock) && AreExits(m, es)
    ensures es != [] ==>
              (ExecuteAll(m, es).Ok?
               <==> Computable(m, Leavers(es)) && m.pool.accruedProtocolFees + Owed(m, Leavers(es)) <= m.vault)
    ensures ExecuteAll(m, es).Ok? ==>
              var after := ExecuteAll(m, es).value;
              && Quiet(after, clock)
              && after.lenders == m.lenders - Leavers(es)
              && after.vault == m.vault - Owed(m, Leavers(es)) - (if Claims(es) then m.pool.accruedProtocolFees else 0)
              && after.borrowers == m.borrowers && after.feeRecipient == m.feeRecipient
              && after.pool == m.pool.(totalDeposits := after.pool.totalDeposits,
                                       accruedProtocolFees := if Claims(es) then 0 else m.pool.accruedProtocolFees)
    decreases |es|
  {
    hide Total;
    hide Consistent;
    hide ExcessCovered;
    hide Payables;
    hide Payable;
    hide Computable;
    hide Accrue;
    hide PayoutFor;
    if es == [] {
      OwedNothing(m);
      assert Leavers(es) == {};
      assert m.lenders - {} == m.lenders;
    } else {
      var first, others := Execute(m, es[0].now, es[0].ix), Leavers(es[1..]);
      if es[0].ix.Withdraw? {
        QuietWithdraw(m, clock, es[0].now, es[0].ix.lender);
      } else {
        QuietClaim(m, clock, es[0].now);
      }
      OwedIsCovered(m, clock, others);
      var left := if es[0].ix.Withdraw? then m.lenders - {es[0].ix.lender} else m.lenders;
      ExitsAfterFirst(m, es, m.(lenders := left));
      if es[0].ix.Withdraw? {
        OwedOneMore(m, es[0].ix.lender, others);
        ComputableOneByOne(m, m.(lenders := left), es[0].ix.lender, others);
      }
      if first.Ok? {
        ExitsSucceedExactly(first.value, clock, es[1..]);
        SameShares(first.value, m.(lenders := left), others);
        if es[1..] == [] {
          assert others == {};
          OwedNothing(first.value);
          ComputableNobody(first.value);
        }
      }
    }
  }

  lemma ComputableNobody(m: Market)
    ensures Computable(m, {})
  {
  }

  lemma SameShares(m: Market, m': Market, leavers: set<Pubkey>)
    requires m'.lenders == m.lenders && m'.pool.scaleFactor == m.pool.scaleFactor
    ensures Owed(m', leavers) == Owed(m, leavers)
    ensures Computable(m', leavers) <==> Computable(m, leavers)
  {
  }

  lemma SomebodyExits(es: seq<Event>)
    requires forall i :: 0 <= i < |es| ==> es[i].ix.Withdraw? || es[i].ix.ClaimProtocolFees?
    ensures es == [] <==> Leavers(es) == {} && !Claims(es)
  {
    if es != [] && es[0].ix.Withdraw? {
      assert es[0].ix.lender in Leavers(es);
    }
  }

  lemma DepositsAreSums(m: Market, clock: i64)
    requires Quiet(m, clock)
    ensures m.pool.totalDeposits == Total(Nominal(m.lenders))
  {
  }

  /** Two orders of the same exits, at whatever times, have the same success and the same end. */
  lemma ExitOrderIrrelevant(m: Market, clock: i64, es: seq<Event>, fs: seq<Event>)
    requires Quiet(m, clock) && AreExits(m, es) && AreExits(m, fs)
    requires Leavers(es) == Leavers(fs) && Claims(es) == Claims(fs)
    ensures ExecuteAll(m, es).Ok? <==> ExecuteAll(m, fs).Ok?
    ensures ExecuteAll(m, es).Ok? ==> ExecuteAll(m, es) == ExecuteAll(m, fs)
  {
    hide ExecuteAll;
    hide Computable;
    hide Owed;
    hide Consistent;
    hide ExcessCovered;
    hide Claims;
    hide Leavers;
    SomebodyExits(es);
    SomebodyExits(fs);
    ExitsSucceedExactly(m, clock, es);
    ExitsSucceedExactly(m, clock, fs);
    if ExecuteAll(m, es).Ok? {
      DepositsAreSums(ExecuteAll(m, es).value, clock);
      DepositsAreSums(ExecuteAll(m, fs).value, clock);
    }
  }

  lemma {:induction false} ExecuteAllSplits(m: Market, es: seq<Event>, k: nat)
    requires k < |es| && ExecuteAll(m, es).Ok?
    ensures ExecuteAll(m, es[..k]).Ok?
    ensures ExecuteAll(m, es[..k + 1]) == Execute(ExecuteAll(m, es[..k]).value, es[k].now, es[k].ix)
    ensures ExecuteAll(m, es[..k + 1]).Ok?
    decreases |es|
  {
    var after := Execute(m, es[0].now, es[0].ix).value;
    if k == 0 {
      assert es[..1] == [es[0]];
      assert [es[0]][1..] == [];
      assert ExecuteAll(after, []) == Ok(after);
    } else {
      ExecuteAllSplits(after, es[1..], k - 1);
      assert es[..k][1..] == es[1..][..k - 1];
      assert es[..k + 1][1..] == es[1..][..k];
    }
  }

  /** Whenever and after whomever a lender leaves, the payment is the one fixed at the start. */
  lemma EveryLeaverIsPaidTheSame(m: Market, clock: i64, es: seq<Event>, k: nat)
    requires Quiet(m, clock) && AreExits(m, es) && ExecuteAll(m, es).Ok?
    requires k < |es| && es[k].ix.Withdraw?
    ensures ExecuteAll(m, es[..k]).Ok? && ExecuteAll(m, es[..k + 1]).Ok?
    ensures ExecuteAll(m, es[..k]).value.vault - ExecuteAll(m, es[..k + 1]).value.vault
         == Payable(m.lenders[es[k].ix.lender], m.pool.scaleFactor)
  {
    ExecuteAllSplits(m, es, k);
    ExitsSucceedExactly(m, clock, es[..k]);
    var before := ExecuteAll(m, es[..k]).value;
    assert es[k].ix.lender in before.lenders by {
      WithdrawEffect(before, es[k]);
    }
    QuietWithdraw(before, clock, es[k].now, es[k].ix.lender);
  }

  /** Apart from the fees, all leavers together are paid at most the deposits and interest at the start. */
  lemma LeaversArePaidWithinCredit(m: Market, clock: i64, es: seq<Event>)
    requires Quiet(m, clock) && AreExits(m, es) && ExecuteAll(m, es).Ok?
    ensures var claimed := if Claims(es) then m.pool.accruedProtocolFees else 0;
            0 <= m.vault - ExecuteAll(m, es).value.vault - claimed
              <= m.pool.totalDeposits + m.pool.totalInterestEarned
  {
    ExitsSucceedExactly(m, clock, es);
    OwedIsCovered(m, clock, Leavers(es));
  }

  /** Everybody can leave and the fees be claimed exactly when no payout overflows and the vault holds it all. */
  lemma EveryoneCanLeaveExactly(m: Market, clock: i64, es: seq<Event>)
    requires Quiet(m, clock) && AreExits(m, es) && es != []
    requires Leavers(es) == m.lenders.Keys
    ensures ExecuteAll(m, es).Ok?
       <==> && (forall l :: l in m.lenders ==> m.lenders[l].scaledDeposit * m.pool.scaleFactor < U128_MODULUS)
            && m.pool.accruedProtocolFees + Total(Payables(m.lenders, m.pool.scaleFactor)) <= m.vault
  {
    ExitsSucceedExactly(m, clock, es);
    assert m.lenders - m.lenders.Keys == map[];
    assert Payables(map[], m.pool.scaleFactor) == map[];
  }

  lemma ComputableWithinLimit(m: Market, clock: i64, leavers: set<Pubkey>)
    requires Quiet(m, clock) && m.pool.totalDeposits + m.pool.totalInterestEarned <= LIMIT
    ensures Computable(m, leavers)
  {
    forall l | l in leavers && l in m.lenders
      ensures m.lenders[l].scaledDeposit * m.pool.scaleFactor < U128_MODULUS
    {
      PayoutsFit(m, clock, l);
      PayoutFailsExactly(m.lenders[l], m.pool.scaleFactor);
    }
  }

  // ----- wind-down from a run -----

  /** Gifts to the vault that make up for rounding, idle seconds and past excess payouts. */
  ghost predicate ToppedUp(w: World) {
    (PERIOD - 1) * RepaidLoans(w.market)
    + w.market.pool.minInterestBips * w.book.idleSeconds
    + PERIOD * w.book.excessPaid
    <= PERIOD * w.book.donated
  }

  lemma NothingActive(m: Market, clock: i64)
    requires Consistent(m, clock) && m.pool.totalBorrows == 0
    ensures Total(ActiveSeconds(m.borrowers, clock)) == 0
  {
    TotalNonNegative(ActivePrincipal(m.borrowers));
    var zero := map a | a in m.borrowers :: 0 * ActivePrincipal(m.borrowers)[a];
    TotalScaled(0, ActivePrincipal(m.borrowers), zero);
    forall a | a in m.borrowers
      ensures ActiveSecondsOf(m.borrowers[a], clock) == 0
    {
      assert PrincipalOf(m.borrowers[a]) == ActivePrincipal(m.borrowers)[a] == 0;
    }
    assert ActiveSeconds(m.borrowers, clock) == zero;
  }

  /** With no loan open and the shortfall made up, the vault holds all that is owed. */
  lemma ToppedUpPoolIsSolvent(w: World)
    requires Reachable(w) && LoansPayTheRate(w.market) && w.market.pool.totalBorrows == 0 && ToppedUp(w)
    ensures w.market.pool.totalDeposits + w.market.pool.totalInterestEarned + w.market.pool.accruedProtocolFees
         <= w.market.vault
  {
    ReachableInvariant(w);
    NothingActive(w.market, w.clock);
    CreditIsCovered(w);
    var rate := w.market.pool.minInterestBips;
    ProductMonotone(rate, OpenSeconds(w), w.book.idleSeconds);
  }

  // ----- what decides whether everybody can leave -----

  /**
   What leavers and fees claim beyond the vault, in units of 1/K and apart
   from rounding: the interest of open seconds, and payouts over the life of
   the pool that deposits and interest do not cover, less the gifts.
   */
  ghost function Shortage(w: World): int {
    w.market.pool.minInterestBips * OpenSeconds(w) + PERIOD * Overshoot(w) - PERIOD * w.book.donated
  }

  /** Tokens the lenders are worth and the fees unclaimed, less the vault. */
  ghost function Missing(w: World): int {
    Total(Entitlements(w.market.lenders, w.market.pool.scaleFactor)) + w.market.pool.accruedProtocolFees
    - w.market.vault
  }

  /** With no loan open the shortage is what is missing, up to rounding from both sides. */
  lemma MissingIsShortage(w: World)
    requires Reachable(w) && w.market.pool.totalBorrows == 0
    ensures LoansPayTheRate(w.market) ==>
              PERIOD * Missing(w) <= Shortage(w) + (PERIOD - 1) * RepaidLoans(w.market)
    ensures LoansWithinRate(w.market) && Uncredited(w) == 0 ==>
              Shortage(w) - (PERIOD - 1) * w.book.accruals <= PERIOD * Missing(w)
  {
    hide Total;
    hide OpenSeconds;
    hide RepaidLoans;
    hide Reachable;
    hide LoansPayTheRate;
    hide LoansWithinRate;
    if LoansPayTheRate(w.market) {
      CreditIsCovered(w);
    }
    if LoansWithinRate(w.market) && Uncredited(w) == 0 {
      CreditIsNotLost(w);
    }
  }

  /** Within LIMIT no cast cuts a payout. */
  lemma PayablesAreWorth(m: Market, clock: i64)
    requires Consistent(m, clock) && ExcessCovered(m) && m.pool.totalDeposits + m.pool.totalInterestEarned <= LIMIT
    ensures Payables(m.lenders, m.pool.scaleFactor) == Entitlements(m.lenders, m.pool.scaleFactor)
  {
    forall l | l in m.lenders
      ensures Payable(m.lenders[l], m.pool.scaleFactor) == Entitlement(m.lenders[l], m.pool.scaleFactor)
    {
      PayoutsFit(m, clock, l);
      PayoutFailsExactly(m.lenders[l], m.pool.scaleFactor);
    }
  }

  lemma OwedWithinAll(m: Market, clock: i64, leavers: set<Pubkey>)
    requires Consistent(m, clock)
    ensures Owed(m, leavers) <= Total(Payables(m.lenders, m.pool.scaleFactor))
  {
    forall l | l in m.lenders - leavers
      ensures 0 <= Payable(m.lenders[l], m.pool.scaleFactor)
    {
      PayableWithinWorth(m.lenders[l], m.pool.scaleFactor);
    }
    TotalNonNegative(Payables(m.lenders - leavers, m.pool.scaleFactor));
  }

  /** Without a shortage any exits, in any order and at any later times, all succeed. */
  lemma WindDownCompletes(w: World, es: seq<Event>)
    requires Reachable(w) && LoansPayTheRate(w.market) && w.market.pool.totalBorrows == 0
    requires Shortage(w) + (PERIOD - 1) * RepaidLoans(w.market) <= 0
    requires w.market.pool.totalDeposits + w.market.pool.totalInterestEarned <= LIMIT
    requires AreExits(w.market, es)
    ensures ExecuteAll(w.market, es).Ok?
  {
    hide ExcessOf;
    hide Entitlements;
    hide AreExits;
    hide Owed;
    hide Payables;
    hide RepaidLoans;
    hide Shortage;
    hide Reachable;
    hide LoansPayTheRate;
    hide Total;
    ReachableInvariant(w);
    MissingIsShortage(w);
    ExitsSucceedExactly(w.market, w.clock, es);
    PayablesAreWorth(w.market, w.clock);
    OwedWithinAll(w.market, w.clock, Leavers(es));
    ComputableWithinLimit(w.market, w.clock, Leavers(es));
  }

  /** With a shortage beyond the rounding of the accruals, no exits of all lenders succeed, in whatever order. */
  lemma WindDownFails(w: World, es: seq<Event>)
    requires Reachable(w) && LoansWithinRate(w.market) && Uncredited(w) == 0 && w.market.pool.totalBorrows == 0
    requires (PERIOD - 1) * w.book.accruals < Shortage(w)
    requires w.market.pool.totalDeposits + w.market.pool.totalInterestEarned <= LIMIT
    requires AreExits(w.market, es) && es != [] && Leavers(es) == w.market.lenders.Keys
    ensures ExecuteAll(w.market, es).Err?
  {
    hide Shortage;
    hide Reachable;
    hide LoansWithinRate;
    hide Uncredited;
    hide Total;
    ReachableInvariant(w);
    MissingIsShortage(w);
    PayablesAreWorth(w.market, w.clock);
    EveryoneCanLeaveExactly(w.market, w.clock, es);
  }

  /**
   A gift covers the shortage if with earlier gifts it makes up for rounding,
   idle seconds and all excess ever paid, or for rounding and idle seconds
   alone while lifetime payouts are within deposits and interest.
   */
  lemma GiftCoversShortage(w: World, amount: int)
    requires Reachable(w) && w.market.pool.totalBorrows == 0
    requires (PERIOD - 1) * RepaidLoans(w.market) + w.market.pool.minInterestBips * w.book.idleSeconds
             + PERIOD * (if Overshoot(w) <= 0 then 0 else w.book.excessPaid)
             <= PERIOD * (w.book.donated + amount)
    ensures Shortage(w) + (PERIOD - 1) * RepaidLoans(w.market) <= PERIOD * amount
  {
    hide Reachable;
    hide Total;
    hide ExcessOf;
    hide RepaidLoans;
    ReachableInvariant(w);
    NothingActive(w.market, w.clock);
    ProductMonotone(w.market.pool.minInterestBips, OpenSeconds(w), w.book.idleSeconds);
    CoveredEntitlements(w.market, w.clock);
  }

  /** While lifetime payouts are within deposits and interest, gifts for rounding and idle seconds alone let all out. */
  lemma RoundingAndIdleGiftSuffices(w: World, es: seq<Event>)
    requires Reachable(w) && LoansPayTheRate(w.market) && w.market.pool.totalBorrows == 0
    requires WithinLifetime(w) || Overshoot(w) <= 0
    requires (PERIOD - 1) * RepaidLoans(w.market) + w.market.pool.minInterestBips * w.book.idleSeconds
             <= PERIOD * w.book.donated
    requires w.market.pool.totalDeposits + w.market.pool.totalInterestEarned <= LIMIT
    requires AreExits(w.market, es)
    ensures ExecuteAll(w.market, es).Ok?
  {
    hide LoansPayTheRate;
    hide Total;
    ReachableInvariant(w);
    if WithinLifetime(w) {
      LifetimeCoversEntitlements(w);
    }
    GiftCoversShortage(w, 0);
    WindDownCompletes(w, es);
  }

  /** A gift lowers the shortage by its amount, and time alone does not change it. */
  lemma GiftLowersShortage(w: World, e: Event)
    requires Invariant(w) && w.clock <= e.now && w.market.pool.totalBorrows == 0
    requires e.ix.TopUp? && Execute(w.market, e.now, e.ix).Ok?
    ensures Shortage(Step(w, e)) == Shortage(w) - PERIOD * e.ix.amount
  {
    hide Total;
    TopUpEffect(w, e);
    NothingActive(w.market, w.clock);
    NothingActive(w.market, e.now);
    assert OpenSeconds(Step(w, e)) == OpenSeconds(w);
    assert Overshoot(Step(w, e)) == Overshoot(w);
  }

  /** One gift as large as the shortage and its rounding lets everybody out of a pool with no loan open. */
  lemma TopUpLetsEveryoneOut(w: World, now: i64, amount: u64, es: seq<Event>)
    requires Reachable(w) && w.clock <= now && LoansPayTheRate(w.market) && w.market.pool.totalBorrows == 0
    requires w.market.pool.totalDeposits + w.market.pool.totalInterestEarned <= LIMIT
    requires w.market.vault + amount < U64_MODULUS
    requires Shortage(w) + (PERIOD - 1) * RepaidLoans(w.market) <= PERIOD * amount
    requires AreExits(w.market, es)
    ensures ExecuteAll(Step(w, Event(now, TopUp(amount))).market, es).Ok?
  {
    hide Shortage;
    hide Reachable;
    hide Total;
    var e := Event(now, TopUp(amount));
    ReachableInvariant(w);
    TopUpEffect(w, e);
    ReachableStep(w, e);
    GiftLowersShortage(w, e);
    WindDownCompletes(Step(w, e), es);
  }

  /**
   Idle seconds lock lenders out: everybody at par, at a recomputed factor,
   the interest of open seconds beyond gifts and rounding means that not all
   lenders can leave, in whatever order they try.
   */
  lemma IdleSecondsLockLendersOut(w: World, es: seq<Event>)
    requires Reachable(w) && LoansWithinRate(w.market) && Uncredited(w) == 0 && w.market.pool.totalBorrows == 0
    requires AllAtPar(w.market) && FactorRecomputed(w.market.pool)
    requires (PERIOD - 1) * w.book.accruals + PERIOD * |w.market.lenders|
             < w.market.pool.minInterestBips * OpenSeconds(w) + PERIOD * (w.book.excessPaid - w.book.donated)
    requires w.market.pool.totalDeposits + w.market.pool.totalInterestEarned <= LIMIT
    requires AreExits(w.market, es) && es != [] && Leavers(es) == w.market.lenders.Keys
    ensures ExecuteAll(w.market, es).Err?
  {
    hide Reachable;
    hide ExcessOf;
    hide Entitlements;
    hide AreExits;
    hide OpenSeconds;
    hide Uncredited;
    hide LoansWithinRate;
    hide Total;
    ReachableInvariant(w);
    CreditIsOwedAtPar(w.market, w.clock);
    WindDownFails(w, es);
  }
}
