/** What one accrual does, as arithmetic without the checks, and how accruals split. */
module Accruing {
  import opened Machine
  import opened Rounding
  import opened Lending
  import opened History

  /** What one accrual reaching `q` from `p` has credited, given a clock that did not go back. */
  ghost predicate AccruedTo(p: Pool, q: Pool, now: i64) {
    var seconds := q.lastAccrual - p.lastAccrual;
    var gross := GrossInterest(p, seconds);
    && q == p.(totalInterestEarned := q.totalInterestEarned, accruedProtocolFees := q.accruedProtocolFees,
               scaleFactor := q.scaleFactor, lastAccrual := q.lastAccrual)
    && 0 <= gross
    && q.totalInterestEarned == p.totalInterestEarned + (gross - gross / 10) % U64_MODULUS
    && q.accruedProtocolFees == p.accruedProtocolFees + (gross / 10) % U64_MODULUS
    && (seconds == 0 ==> q == p)
    && (seconds != 0 ==>
          && q.lastAccrual == now
          && p.totalDeposits > 0 && p.totalBorrows > 0
          && q.scaleFactor == RAY + q.totalInterestEarned * RAY / p.totalDeposits)
    && (q.lastAccrual != now ==> p.totalDeposits == 0 || p.totalBorrows == 0)
  }

  lemma InterestOfNoTime(principal: int, bips: int)
    ensures principal * bips * 0 / PERIOD == 0
  {
  }

  lemma NoGross(p: Pool)
    ensures GrossInterest(p, 0) == 0
  {
  }

  lemma FeeShare(gross: int)
    requires 0 <= gross
    ensures gross * PROTOCOL_FEE_BIPS / BIP_DENOMINATOR == gross / 10
  {
  }

  /** A successful accrual credits exactly the pool's gross interest, split between lenders and fees. */
  lemma AccrualEffect(p: Pool, now: i64)
    requires p.lastAccrual <= now
    requires Accrue(p, now).Ok?
    ensures AccruedTo(p, Accrue(p, now).value, now)
  {
    var q := Accrue(p, now).value;
    var seconds := q.lastAccrual - p.lastAccrual;
    if seconds == 0 {
      InterestOfNoTime(p.totalBorrows, p.minInterestBips);
    } else {
      FeeShare(SimpleInterest(p.totalBorrows, p.minInterestBips, seconds).value);
    }
  }

  /** Within a hundred percent of simple interest, nothing overflows and nothing is cut off. */
  lemma InterestFits(principal: u64, bips: u16, seconds: u128)
    requires bips * seconds <= PERIOD
    ensures SimpleInterest(principal, bips, seconds).Ok?
    ensures SimpleInterest(principal, bips, seconds).value == principal * bips * seconds / PERIOD <= principal
  {
    assert principal * bips * seconds == principal * (bips * seconds);
    ProductMonotone(principal, bips * seconds, PERIOD);
    ProductNonNegative(principal, bips);
    ProductNonNegative(principal * bips, seconds);
    ProductMonotone(bips, 0, seconds);
    assert principal * bips < U128_MODULUS by {
      ProductMonotone(principal, bips, 0x1_0000);
    }
    FloorAtMost(principal * bips * seconds, PERIOD, principal);
  }

  // ----- accruing often or once -----

  /** How gross interest is split when no cast cuts it. */
  function ProtocolShare(gross: int): int {
    gross / 10
  }

  function LenderShare(gross: int): int {
    gross - gross / 10
  }

  /** The accrual at every time of the list in turn. */
  function AccrueAt(p: Pool, times: seq<i64>): Outcome<Pool>
    decreases |times|
  {
    if times == [] then
      Ok(p)
    else
      var q :- Accrue(p, times[0]);
      AccrueAt(q, times[1..])
  }

  predicate Increasing(from: i64, times: seq<i64>)
    decreases |times|
  {
    times == [] || (from < times[0] && Increasing(times[0], times[1..]))
  }

  /** Two floors against the floor of the sum, and the same after the fee split. */
  lemma SplitOnce(x: int, y: int)
    requires 0 <= x && 0 <= y
    ensures Splits((x + y) / PERIOD, x / PERIOD, y / PERIOD)
  {
  }

  lemma CastKeepsSmall(gross: int)
    requires 0 <= gross < U64_MODULUS
    ensures LenderShare(gross) % U64_MODULUS == LenderShare(gross)
    ensures ProtocolShare(gross) % U64_MODULUS == ProtocolShare(gross)
  {
  }

  /** One effective accrual whose interest is not cut by a cast. */
  lemma FullAccrual(p: Pool, now: i64)
    requires p.lastAccrual < now && 0 < p.totalBorrows && 0 < p.totalDeposits
    requires Accrue(p, now).Ok?
    requires GrossInterest(p, now - p.lastAccrual) < U64_MODULUS
    ensures var q, gross := Accrue(p, now).value, GrossInterest(p, now - p.lastAccrual);
            && 0 <= gross
            && q.totalInterestEarned == p.totalInterestEarned + LenderShare(gross)
            && q.accruedProtocolFees == p.accruedProtocolFees + ProtocolShare(gross)
            && q.totalDeposits == p.totalDeposits && q.totalBorrows == p.totalBorrows
            && q.minInterestBips == p.minInterestBips
            && q.lastAccrual == now
  {
    AccrualEffect(p, now);
    CastKeepsSmall(GrossInterest(p, now - p.lastAccrual));
  }

  lemma InterestAdds(p: Pool, x: int, y: int)
    requires 0 <= x && 0 <= y
    ensures var rate := p.totalBorrows * p.minInterestBips;
            && 0 <= rate * x && 0 <= rate * y && rate * (x + y) == rate * x + rate * y
  {
    ProductNonNegative(p.totalBorrows, p.minInterestBips);
    ProductNonNegative(p.totalBorrows * p.minInterestBips, x);
    ProductNonNegative(p.totalBorrows * p.minInterestBips, y);
    Distribute(p.totalBorrows * p.minInterestBips, x, y);
  }

  /** Splitting a period in two: less by at most one in all, never more in fees, within one for lenders. */
  lemma SplitPeriod(p: Pool, x: int, y: int)
    requires 0 <= x && 0 <= y
    ensures Splits(GrossInterest(p, x + y), GrossInterest(p, x), GrossInterest(p, y))
  {
    InterestAdds(p, x, y);
    SplitOnce(p.totalBorrows * p.minInterestBips * x, p.totalBorrows * p.minInterestBips * y);
  }

  lemma {:induction false} LastIsLater(from: i64, times: seq<i64>)
    requires times != [] && Increasing(from, times)
    ensures from < times[|times| - 1]
    decreases |times|
  {
    if |times| == 1 {
    } else {
      LastIsLater(times[0], times[1..]);
    }
  }

  /** How far n accruals with the given credits may be from one accrual of `gross`. */
  predicate Near(gross: int, earned: int, fees: int, n: int) {
    && gross - (n - 1) <= earned + fees <= gross
    && fees <= ProtocolShare(gross)
    && LenderShare(gross) - (n - 1) <= earned <= LenderShare(gross) + (n - 1)
  }

  /** The relation between the gross of two stretches and the gross of both together. */
  predicate Splits(gross: int, first: int, rest: int) {
    && 0 <= first && 0 <= rest
    && first + rest <= gross <= first + rest + 1
    && ProtocolShare(first) + ProtocolShare(rest) <= ProtocolShare(gross)
    && LenderShare(gross) - 1 <= LenderShare(first) + LenderShare(rest) <= LenderShare(gross) + 1
  }

  lemma NearStep(gross: int, first: int, rest: int, earned: int, fees: int, n: int)
    requires Splits(gross, first, rest) && Near(rest, earned, fees, n)
    ensures Near(gross, LenderShare(first) + earned, ProtocolShare(first) + fees, n + 1)
  {
  }

  lemma SameTerms(p: Pool, q: Pool, seconds: int)
    requires q.totalBorrows == p.totalBorrows && q.minInterestBips == p.minInterestBips
    ensures GrossInterest(q, seconds) == GrossInterest(p, seconds)
  {
  }

  /**
   Accruing n times over a period with fixed borrows and deposits, against
   accruing once at its end: the gross interest is short by at most n - 1,
   the protocol's fees are never larger, and the lenders' interest differs by
   at most n - 1.
   */
  lemma {:induction false} AccruingOften(p: Pool, times: seq<i64>)
    requires times != [] && Increasing(p.lastAccrual, times)
    requires 0 < p.totalBorrows && 0 < p.totalDeposits
    requires AccrueAt(p, times).Ok?
    requires GrossInterest(p, times[|times| - 1] - p.lastAccrual) < U64_MODULUS
    ensures var q, n := AccrueAt(p, times).value, |times|;
            && Near(GrossInterest(p, times[n - 1] - p.lastAccrual),
                    q.totalInterestEarned - p.totalInterestEarned,
                    q.accruedProtocolFees - p.accruedProtocolFees, n)
            && q.totalDeposits == p.totalDeposits && q.totalBorrows == p.totalBorrows
            && q.lastAccrual == times[n - 1]
    decreases |times|
  {
    hide Accrue;
    hide GrossInterest;
    var whole := times[|times| - 1] - p.lastAccrual;
    if |times| == 1 {
      assert times[1..] == [];
      assert AccrueAt(p, times) == Accrue(p, times[0]);
      FullAccrual(p, times[0]);
    } else {
      var rest := times[1..];
      LastIsLater(times[0], rest);
      var middle: int, end: int := times[0], rest[|rest| - 1];
      var first, last := middle - p.lastAccrual, end - middle;
      var q := Accrue(p, times[0]).value;
      var gross, g1, g2 := GrossInterest(p, whole), GrossInterest(p, first), GrossInterest(p, last);
      assert Splits(gross, g1, g2) by {
        SplitPeriod(p, first, last);
      }
      FullAccrual(p, times[0]);
      SameTerms(p, q, last);
      AccruingOften(q, rest);
      var final := AccrueAt(q, rest).value;
      NearStep(gross, g1, g2, final.totalInterestEarned - q.totalInterestEarned,
               final.accruedProtocolFees - q.accruedProtocolFees, |rest|);
    }
  }

  /** The same against an actual single accrual from the same state. */
  lemma OftenOrOnce(p: Pool, times: seq<i64>)
    requires times != [] && Increasing(p.lastAccrual, times)
    requires 0 < p.totalBorrows && 0 < p.totalDeposits
    requires GrossInterest(p, times[|times| - 1] - p.lastAccrual) < U64_MODULUS
    requires AccrueAt(p, times).Ok? && Accrue(p, times[|times| - 1]).Ok?
    ensures var often, once := AccrueAt(p, times).value, Accrue(p, times[|times| - 1]).value;
            var more := |times| - 1;
            && often.accruedProtocolFees <= once.accruedProtocolFees
            && once.totalInterestEarned - more <= often.totalInterestEarned <= once.totalInterestEarned + more
            && once.totalInterestEarned + once.accruedProtocolFees - more
               <= often.totalInterestEarned + often.accruedProtocolFees
               <= once.totalInterestEarned + once.accruedProtocolFees
  {
    hide Accrue;
    hide AccrueAt;
    hide GrossInterest;
    LastIsLater(p.lastAccrual, times);
    AccruingOften(p, times);
    FullAccrual(p, times[|times| - 1]);
  }
}
