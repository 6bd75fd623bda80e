/** The pool together with its hook: what the hook's answer makes of the pool's loans. */
module HookedPool {
  import opened Machine
  import opened Lending
  import opened History
  import opened Accounting
  import opened Steps
  import opened BalanceSheet
  import opened Progress
  import opened ScoreVerifier
  import opened ReputationHook
  import opened Instructions

  /** The hook's result as borrow receives it. */
  function AnswerOf(r: Result<OnBorrowResult, HookError>): HookAnswer {
    match r
    case Ok(result) => Terms(result.approved, result.interestBips, result.termSeconds)
    case Err(_) => CallFailed
  }

  /** How one hook is set up for one pool. */
  datatype Hook = Hook(hash: Hash, sasProgram: Pubkey, config: HookConfig)

  /** A borrow is answered by the hook, asked with the pool's own rate and term for the accounts that came with it. */
  predicate AnsweredByHook(w: World, e: Event, offer: seq<Account>, hook: Hook) {
    e.ix.Borrow? ==>
      e.ix.answer == AnswerOf(Decide(hook.hash, hook.sasProgram, offer, e.ix.agent, e.ix.amount,
                                     w.market.pool.minInterestBips, w.market.pool.minTermSeconds, hook.config, e.now))
  }

  /** Among the accounts there is one that the score program owns and whose bytes verify for the agent now. */
  ghost predicate ShowsScore(accounts: seq<Account>, agent: Pubkey, hook: Hook, now: i64) {
    exists i :: 0 <= i < |accounts|
                && accounts[i].owner == hook.sasProgram && accounts[i].readable
                && Verify(hook.hash, accounts[i].data, agent, hook.config, now).Ok?
  }

  /**
   A pool governed by the reputation hook lends exactly when the pool's own
   conditions hold, the amount is within the cap, one of the accounts shown is
   owned by the score program and verifies, and the term has a maturity date;
   and the loan is then at the pool's rate and for the pool's term.
   */
  lemma HookedBorrowSucceedsExactly(w: World, e: Event, accounts: seq<Account>, hook: Hook)
    requires Reachable(w) && w.clock <= e.now && Accrue(w.market.pool, e.now).Ok?
    requires e.ix.Borrow? && AnsweredByHook(w, e, accounts, hook)
    ensures var m, q, r := w.market, Accrue(w.market.pool, e.now).value, Execute(w.market, e.now, e.ix);
            && (r.Ok? <==>
                  && e.ix.agent !in m.borrowers
                  && m.pool.totalDeposits * m.pool.reserveRatioBips / 10_000 % U64_MODULUS
                     + q.accruedProtocolFees + e.ix.amount <= m.vault
                  && e.ix.hookProgram == m.pool.hookProgram
                  && e.ix.amount <= hook.config.maxBorrowPerAgent
                  && ShowsScore(accounts, e.ix.agent, hook, e.now)
                  && -I64_MAX - 1 <= e.now + m.pool.minTermSeconds <= I64_MAX
                  && m.pool.totalBorrows + e.ix.amount < U64_MODULUS)
            && (r.Ok? ==>
                  r.value.borrowers
                  == m.borrowers[e.ix.agent := BorrowerPosition(e.ix.amount, m.pool.minInterestBips, 0, e.now, e.now,
                                                                Active, m.pool.minTermSeconds,
                                                                e.now + m.pool.minTermSeconds)])
  {
    hide Accrue;
    hide Execute;
    hide Reachable;
    hide Decide;
    BorrowDecided(w, e);
    DecidesExactly(hook.hash, hook.sasProgram, accounts, e.ix.agent, e.ix.amount, w.market.pool.minInterestBips,
                   w.market.pool.minTermSeconds, hook.config, e.now);
  }

  /** A pool governed by the reputation hook lends only within the cap, at its own rate, on a score that verifies. */
  lemma LoansNeedAScore(m: Market, now: i64, agent: Pubkey, amount: u64, hookProgram: Pubkey, hash: Hash,
                        sasProgram: Pubkey, accounts: seq<Account>, config: HookConfig)
    requires var decision := Decide(hash, sasProgram, accounts, agent, amount, m.pool.minInterestBips,
                                    m.pool.minTermSeconds, config, now);
             HandleBorrow(m, now, agent, amount, hookProgram, AnswerOf(decision)).Ok?
    ensures amount <= config.maxBorrowPerAgent
    ensures exists i :: 0 <= i < |accounts| && accounts[i].owner == sasProgram
                        && Verify(hash, accounts[i].data, agent, config, now).Ok?
    ensures hookProgram == m.pool.hookProgram
    ensures -I64_MAX - 1 <= now + m.pool.minTermSeconds <= I64_MAX
    ensures var decision := Decide(hash, sasProgram, accounts, agent, amount, m.pool.minInterestBips,
                                   m.pool.minTermSeconds, config, now);
            var after := HandleBorrow(m, now, agent, amount, hookProgram, AnswerOf(decision)).value;
            && agent in after.borrowers
            && after.borrowers[agent].principal == amount
            && after.borrowers[agent].interestBips == m.pool.minInterestBips
            && after.borrowers[agent].maturity == now + m.pool.minTermSeconds
  {
  }

  /** Every approval in the run quotes the given rate, as both hooks of the repository do. */
  predicate QuotesRate(es: seq<Event>, rate: u16) {
    forall i :: 0 <= i < |es| && es[i].ix.Borrow? && es[i].ix.answer.Terms? ==>
      es[i].ix.answer.interestBips == rate
  }

  lemma StepKeepsPrice(w: World, e: Event)
    requires Invariant(w) && w.clock <= e.now && PricedAtPool(w.market)
    requires QuotesRate([e], w.market.pool.minInterestBips)
    ensures PricedAtPool(Step(w, e).market)
  {
    StepKeepsRate(w, e);
    if Execute(w.market, e.now, e.ix).Ok? {
      InstructionShape(w.market, e);
      assert [e][0] == e;
      if e.ix.Borrow? {
        BorrowEffect(w.market, e);
      } else if e.ix.Repay? {
        assert LoanSound(w.market.borrowers[e.ix.agent], w.clock);
        RepayEffect(w.market, e);
      }
    }
  }

  lemma {:induction false} RunKeepsPrice(w: World, es: seq<Event>)
    requires Invariant(w) && Chronological(w.clock, es) && PricedAtPool(w.market)
    requires QuotesRate(es, w.market.pool.minInterestBips)
    ensures PricedAtPool(Run(w, es).market)
    decreases |es|
  {
    if es == [] {
    } else {
      assert QuotesRate([es[0]], w.market.pool.minInterestBips);
      StepKeepsPrice(w, es[0]);
      StepKeepsInvariant(w, es[0]);
      StepKeepsRate(w, es[0]);
      assert forall i :: 0 <= i < |es[1..]| ==> es[1..][i] == es[i + 1];
      RunKeepsPrice(Step(w, es[0]), es[1..]);
    }
  }

  /** In a pool whose hook quotes the pool's rate, the gap bound holds after every run of bounded age. */
  lemma GapIsBoundedInEveryRun(m: Market, t0: i64, es: seq<Event>)
    requires Fresh(m, t0) && Chronological(t0, es) && QuotesRate(es, m.pool.minInterestBips)
    requires Young(t0, Run(Genesis(m, t0), es))
    ensures var w := Run(Genesis(m, t0), es);
            var gap := PERIOD * Obligations(w) - PERIOD * Assets(w)
                       - w.market.pool.minInterestBips * OpenSeconds(w);
            -(PERIOD - 1) * w.book.accruals <= gap <= (PERIOD - 1) * RepaidLoans(w.market)
  {
    var w := Run(Genesis(m, t0), es);
    GenesisInvariant(m, t0);
    RunKeepsPrice(Genesis(m, t0), es);
    assert ReachableSince(t0, w);
    GapIsBounded(t0, w);
  }

  // ----- runs whose loans the hook decides -----

  /** Every borrow of the run, successful or not, is answered by the hook; `offers` are the accounts at each event. */
  predicate RunByHook(w: World, es: seq<Event>, offers: seq<seq<Account>>, hook: Hook)
    requires |offers| == |es|
    decreases |es|
  {
    es == [] || (AnsweredByHook(w, es[0], offers[0], hook) && RunByHook(Step(w, es[0]), es[1..], offers[1..], hook))
  }

  /** Event `k` of the run took out this loan, at this rate and term, within the cap, and on a score shown with it. */
  ghost predicate TakenAt(w: World, es: seq<Event>, offers: seq<seq<Account>>, hook: Hook, agent: Pubkey,
                          loan: BorrowerPosition, rate: u16, term: i64, k: nat)
    requires |offers| == |es|
  {
    && k < |es|
    && es[k].ix.Borrow? && es[k].ix.agent == agent
    && Execute(Run(w, es[..k]).market, es[k].now, es[k].ix).Ok?
    && loan.borrowedAt == es[k].now
    && loan.principal == es[k].ix.amount <= hook.config.maxBorrowPerAgent
    && loan.interestBips == rate && loan.termSeconds == term && loan.maturity == loan.borrowedAt + term
    && ShowsScore(offers[k], agent, hook, es[k].now)
  }

  lemma HookedBorrow(w: World, e: Event, offer: seq<Account>, hook: Hook)
    requires e.ix.Borrow? && Execute(w.market, e.now, e.ix).Ok? && AnsweredByHook(w, e, offer, hook)
    ensures e.ix.agent in Step(w, e).market.borrowers
    ensures var loan := Step(w, e).market.borrowers[e.ix.agent];
            && loan.borrowedAt == e.now && loan.principal == e.ix.amount <= hook.config.maxBorrowPerAgent
            && loan.interestBips == w.market.pool.minInterestBips
            && loan.termSeconds == w.market.pool.minTermSeconds && loan.maturity == e.now + loan.termSeconds
    ensures ShowsScore(offer, e.ix.agent, hook, e.now)
  {
    hide Accrue;
    hide Verify;
    BorrowEffect(w.market, e);
    ApprovesExactly(hook.hash, hook.sasProgram, offer, e.ix.agent, e.ix.amount, w.market.pool.minInterestBips,
                    w.market.pool.minTermSeconds, hook.config, e.now);
  }

  /** What happened at event `k` of the rest of a run happened at event `k + 1` of the run. */
  lemma TakenLater(w: World, es: seq<Event>, offers: seq<seq<Account>>, hook: Hook, agent: Pubkey,
                   loan: BorrowerPosition, rate: u16, term: i64, k: nat)
    requires |offers| == |es| && es != []
    requires TakenAt(Step(w, es[0]), es[1..], offers[1..], hook, agent, loan, rate, term, k)
    ensures TakenAt(w, es, offers, hook, agent, loan, rate, term, k + 1)
  {
    hide Execute;
    hide Step;
    hide ShowsScore;
    assert es[..k + 1][1..] == es[1..][..k];
    assert es[..k + 1][0] == es[0];
  }

  /**
   In a run under the reputation hook every loan, open or repaid, was taken
   by one of the run's borrows: at the pool's rate and term, within the cap, and with
   an account among those that came with it that the score program owned and
   that verified for the borrower at that moment.
   */
  lemma {:induction false} EveryLoanHadAScore(w: World, es: seq<Event>, offers: seq<seq<Account>>, hook: Hook,
                                              agent: Pubkey)
    requires Invariant(w) && Chronological(w.clock, es)
    requires |offers| == |es| && RunByHook(w, es, offers, hook)
    requires agent !in w.market.borrowers && agent in Run(w, es).market.borrowers
    ensures exists k: nat ::
              TakenAt(w, es, offers, hook, agent, Run(w, es).market.borrowers[agent], w.market.pool.minInterestBips,
                      w.market.pool.minTermSeconds, k)
    decreases |es|
  {
    hide Execute;
    hide ShowsScore;
    if es == [] {
      assert false;
    } else {
      var e, next := es[0], Step(w, es[0]);
      var rate, term := w.market.pool.minInterestBips, w.market.pool.minTermSeconds;
      var loan := Run(w, es).market.borrowers[agent];
      StepKeepsInvariant(w, e);
      StepKeepsRate(w, e);
      if agent in next.market.borrowers {
        StepMovesLoanForward(w, e, agent);
        assert Execute(w.market, e.now, e.ix).Ok?;
        HookedBorrow(w, e, offers[0], hook);
        LoansMoveForward(next, es[1..], agent);
        assert es[..0] == [];
        assert TakenAt(w, es, offers, hook, agent, loan, rate, term, 0);
      } else {
        EveryLoanHadAScore(next, es[1..], offers[1..], hook, agent);
        var k: nat :| TakenAt(next, es[1..], offers[1..], hook, agent, loan, rate, term, k);
        TakenLater(w, es, offers, hook, agent, loan, rate, term, k);
      }
    }
  }

  /** Under the reputation hook the gap bound holds after every run of bounded age. */
  lemma GapIsBoundedUnderHook(m: Market, t0: i64, es: seq<Event>, offers: seq<seq<Account>>, hook: Hook)
    requires Fresh(m, t0) && Chronological(t0, es)
    requires |offers| == |es| && RunByHook(Genesis(m, t0), es, offers, hook)
    requires Young(t0, Run(Genesis(m, t0), es))
    ensures var w := Run(Genesis(m, t0), es);
            var gap := PERIOD * Obligations(w) - PERIOD * Assets(w)
                       - w.market.pool.minInterestBips * OpenSeconds(w);
            -(PERIOD - 1) * w.book.accruals <= gap <= (PERIOD - 1) * RepaidLoans(w.market)
  {
    var g, w := Genesis(m, t0), Run(Genesis(m, t0), es);
    GenesisInvariant(m, t0);
    RunKeepsClockAndRate(g, es);
    forall a | a in w.market.borrowers
      ensures w.market.borrowers[a].interestBips == w.market.pool.minInterestBips
    {
      EveryLoanHadAScore(g, es, offers, hook, a);
    }
    assert ReachableSince(t0, w);
    GapIsBounded(t0, w);
  }
}
