/** The reputation hook's decision over a borrower's candidate accounts. */
module ReputationHook {
  import opened Machine
  import opened ScoreVerifier

  datatype Account = Account(owner: Pubkey, readable: bool, data: Bytes)

  datatype OnBorrowResult = OnBorrowResult(approved: bool, interestBips: u16, termSeconds: i64)

  /** The check of one candidate account. */
  function Check(hash: Hash, sasProgram: Pubkey, acc: Account, agent: Pubkey, config: HookConfig, now: i64)
    : Result<Pubkey, HookError>
  {
    if acc.owner != sasProgram then Err(InvalidScoreAccount)
    else if !acc.readable then Err(InvalidScoreLayout)
    else Verify(hash, acc.data, agent, config, now)
  }

  predicate Passes(hash: Hash, sasProgram: Pubkey, acc: Account, agent: Pubkey, config: HookConfig, now: i64) {
    Check(hash, sasProgram, acc, agent, config, now).Ok?
  }

  /** The hook's answer: any passing account approves, and without one the last failure is reported. */
  function Decide(hash: Hash, sasProgram: Pubkey, accounts: seq<Account>, agent: Pubkey, amount: u64,
                  minInterestBips: u16, minTermSeconds: i64, config: HookConfig, now: i64)
    : Result<OnBorrowResult, HookError>
  {
    if config.maxBorrowPerAgent < amount then
      Err(BorrowExceedsCap)
    else if exists acc :: acc in accounts && Passes(hash, sasProgram, acc, agent, config, now) then
      Ok(OnBorrowResult(true, minInterestBips, minTermSeconds))
    else if accounts == [] then
      Err(NoValidReputationScore)
    else
      var last := accounts[|accounts| - 1];
      assert last in accounts;
      Err(Check(hash, sasProgram, last, agent, config, now).error)
  }

  /** Approval needs an amount within the cap and one account that passes, and nothing else. */
  lemma ApprovesExactly(hash: Hash, sasProgram: Pubkey, accounts: seq<Account>, agent: Pubkey, amount: u64,
                        bips: u16, term: i64, config: HookConfig, now: i64)
    ensures Decide(hash, sasProgram, accounts, agent, amount, bips, term, config, now).Ok?
       <==> && amount <= config.maxBorrowPerAgent
            && (exists i :: 0 <= i < |accounts| && accounts[i].owner == sasProgram && accounts[i].readable
                            && Verify(hash, accounts[i].data, agent, config, now).Ok?)
  {
    if amount <= config.maxBorrowPerAgent {
      forall acc | acc in accounts && Passes(hash, sasProgram, acc, agent, config, now)
        ensures exists i :: 0 <= i < |accounts| && accounts[i].owner == sasProgram && accounts[i].readable
                            && Verify(hash, accounts[i].data, agent, config, now).Ok?
      {
        var i :| 0 <= i < |accounts| && accounts[i] == acc;
      }
      forall i | 0 <= i < |accounts| && accounts[i].owner == sasProgram && accounts[i].readable
                 && Verify(hash, accounts[i].data, agent, config, now).Ok?
        ensures accounts[i] in accounts && Passes(hash, sasProgram, accounts[i], agent, config, now)
      {
      }
    }
  }

  /** An approval carries the terms asked for; a refusal blames the cap, the lack of accounts, or the last account. */
  lemma DecidesExactly(hash: Hash, sasProgram: Pubkey, accounts: seq<Account>, agent: Pubkey, amount: u64,
                       bips: u16, term: i64, config: HookConfig, now: i64)
    ensures var r := Decide(hash, sasProgram, accounts, agent, amount, bips, term, config, now);
            && (r.Ok? <==>
                  && amount <= config.maxBorrowPerAgent
                  && (exists i :: 0 <= i < |accounts| && accounts[i].owner == sasProgram && accounts[i].readable
                                  && Verify(hash, accounts[i].data, agent, config, now).Ok?))
            && (r.Ok? ==> r.value.approved && r.value.interestBips == bips && r.value.termSeconds == term)
            && (r.Err? ==>
                  if config.maxBorrowPerAgent < amount then r.error == BorrowExceedsCap
                  else if accounts == [] then r.error == NoValidReputationScore
                  else
                    var last := accounts[|accounts| - 1];
                    if last.owner != sasProgram then r.error == InvalidScoreAccount
                    else if !last.readable then r.error == InvalidScoreLayout
                    else Verify(hash, last.data, agent, config, now) == Err(r.error))
  {
    ApprovesExactly(hash, sasProgram, accounts, agent, amount, bips, term, config, now);
  }

  method HandleOnBorrow(hash: Hash, sasProgram: Pubkey, accounts: seq<Account>, agent: Pubkey, amount: u64,
                        minInterestBips: u16, maxInterestBips: u16, minTermSeconds: i64, maxTermSeconds: i64,
                        config: HookConfig, now: i64)
    returns (r: Result<OnBorrowResult, HookError>)
    ensures r == Decide(hash, sasProgram, accounts, agent, amount, minInterestBips, minTermSeconds, config, now)
    ensures r.Ok? <==> && amount <= config.maxBorrowPerAgent
                       && (exists i :: 0 <= i < |accounts| && accounts[i].owner == sasProgram && accounts[i].readable
                                       && Verify(hash, accounts[i].data, agent, config, now).Ok?)
    ensures r.Ok? ==> && r.value.approved
                      && r.value.interestBips == minInterestBips && r.value.termSeconds == minTermSeconds
    ensures r.Err? && config.maxBorrowPerAgent < amount ==> r.error == BorrowExceedsCap
    ensures r.Err? && amount <= config.maxBorrowPerAgent && accounts == [] ==> r.error == NoValidReputationScore
    ensures r.Err? && amount <= config.maxBorrowPerAgent && accounts != [] ==>
              var last := accounts[|accounts| - 1];
              if last.owner != sasProgram then r.error == InvalidScoreAccount
              else if !last.readable then r.error == InvalidScoreLayout
              else Verify(hash, last.data, agent, config, now) == Err(r.error)
  {
    hide Verify;
    hide Decide;
    DecidesExactly(hash, sasProgram, accounts, agent, amount, minInterestBips, minTermSeconds, config, now);
    if config.maxBorrowPerAgent < amount {
      return Err(BorrowExceedsCap);
    }
    var lastFailure := NoValidReputationScore;
    var approvedProvider: Option<Pubkey> := None;
    var i := 0;
    while i < |accounts|
      invariant 0 <= i <= |accounts|
      invariant approvedProvider.None?
      invariant forall j :: 0 <= j < i ==> !Passes(hash, sasProgram, accounts[j], agent, config, now)
      invariant lastFailure == if i == 0 then NoValidReputationScore
                               else Check(hash, sasProgram, accounts[i - 1], agent, config, now).error
    {
      var acc := accounts[i];
      i := i + 1;
      if acc.owner != sasProgram {
        lastFailure := InvalidScoreAccount;
        continue;
      }
      if !acc.readable {
        lastFailure := InvalidScoreLayout;
        continue;
      }
      var verdict := VerifyScoreBytes(hash, acc.data, agent, config, now);
      if verdict.Ok? {
        approvedProvider := Some(verdict.value);
        break;
      }
      lastFailure := verdict.error;
    }
    if approvedProvider.None? {
      return Err(lastFailure);
    }
    assert Passes(hash, sasProgram, accounts[i - 1], agent, config, now);
    return Ok(OnBorrowResult(true, minInterestBips, minTermSeconds));
  }
}
