/** When a vote is added, withdrawn or moved to a branch, and why it is not. */
module VoteOutcomes {
  import opened Outcomes
  import opened Encoding
  import opened Errors
  import opened Ledger
  import opened Totals
  import opened LedgerEffects
  import opened LedgerInvariant
  import opened Instructions
  import opened Runs
  import opened Exit
  import opened CreationOutcomes

  // ----- Voting

  /** A vote's own account, and a deposit of the record's current rent. */
  ghost function VotePrice(m: Accounts, env: Env, voter: Key, id: Digest, space: nat): nat {
    TopUp(m, env, VotePda(voter, id), VOTE_INFO_SPACE) + env.rent(space)
  }

  ghost predicate CanVote(m: Accounts, env: Env, voter: Key, id: Digest, space: nat) {
    && At(m, Wallet(voter)).lamports >= VotePrice(m, env, voter, id, space)
    && (Charges(m, env, VotePda(voter, id), VOTE_INFO_SPACE) || env.rent(space) > 0 ==> Plain(At(m, Wallet(voter))))
  }

  /** The record and the vote after one more voter joined. */
  ghost predicate Joined(m: Accounts, m': Accounts, env: Env, voter: Key, id: Digest)
    requires At(m, HashPda(id)).data.HashData?
  {
    var h, v, state := HashPda(id), VotePda(voter, id), At(m, HashPda(id)).data.hash;
    && state.voters + 1 < U64_LIMIT
    && ChangesOnly(m, m', {h, v, Wallet(voter)})
    && At(m', h) == At(m, h).(lamports := At(m, h).lamports + env.rent(state.space),
                              data := HashData(state.(voters := state.voters + 1)))
    && At(m', v) == AccountInfo(Program, At(m, v).lamports + TopUp(m, env, v, VOTE_INFO_SPACE), false,
                                VoteData(VoteState(voter, id, env.rent(state.space))))
    && VotePrice(m, env, voter, id, state.space) <= At(m, Wallet(voter)).lamports
    && At(m', Wallet(voter))
       == At(m, Wallet(voter)).(lamports := At(m, Wallet(voter)).lamports - VotePrice(m, env, voter, id, state.space))
  }

  lemma DepositOutcome(H: Hasher, m: Accounts, env: Env, voter: Key, id: Digest)
    requires Consistent(H, m) && At(m, HashPda(id)).owner == Program && LiveRecord(H, m, id)
    requires At(m, VotePda(voter, id)).owner != Program
    ensures var state := At(m, HashPda(id)).data.hash;
            var outcome := AddVote(H, m, env, voter, HashPda(id), VotePda(voter, id), state);
            && (outcome.Success? <==> CanVote(m, env, voter, id, state.space) && state.voters + 1 < U64_LIMIT)
            && (Plain(At(m, Wallet(voter))) && !CanVote(m, env, voter, id, state.space) ==>
                  outcome == Failure(InsufficientFunds))
            && (CanVote(m, env, voter, id, state.space) && state.voters + 1 >= U64_LIMIT ==>
                  outcome == Failure(InvalidInstructionData))
  {
    var state, h, v, w := At(m, HashPda(id)).data.hash, HashPda(id), VotePda(voter, id), Wallet(voter);
    var deposit := env.rent(state.space);
    assert Placed(H, m, v);
    ClaimOutcome(m, env, voter, v, VOTE_INFO_SPACE, VoteData(VoteState(voter, id, deposit)));
    var voted := CreateVote(m, env, voter, v, id, deposit);
    if voted.Success? {
      CreateVoteEffect(m, env, voter, v, id, deposit, Lamports);
      TwoSharesArePart(voted.value, Lamports, w, h);
    }
  }

  /** A vote is accepted exactly from someone not yet voting, at the right addresses, who can pay
      for it, unless the counter is exhausted. */
  lemma VoteOutcome(H: Hasher, m: Accounts, env: Env, voter: Key, hashAddress: Address, voteAddress: Address)
    requires Consistent(H, m)
    ensures var outcome := Apply(H, m, env, Vote(voter, hashAddress, voteAddress));
            && (outcome.Success? <==>
                  && LiveMember(m, hashAddress) && voteAddress == VotePda(voter, hashAddress.id)
                  && At(m, voteAddress).owner != Program
                  && CanVote(m, env, voter, hashAddress.id, At(m, hashAddress).data.hash.space)
                  && At(m, hashAddress).data.hash.voters + 1 < U64_LIMIT)
            && (outcome.Success? ==> Joined(m, outcome.value, env, voter, hashAddress.id))
  {
    assert Placed(H, m, hashAddress);
    if LiveMember(m, hashAddress) && voteAddress == VotePda(voter, hashAddress.id)
       && At(m, voteAddress).owner != Program {
      DepositOutcome(H, m, env, voter, hashAddress.id);
    }
    if Apply(H, m, env, Vote(voter, hashAddress, voteAddress)).Success? {
      AddVoteEffect(H, m, env, voter, voteAddress, At(m, hashAddress).data.hash, Lamports);
    }
  }

  /** Why a vote at the right addresses is refused. */
  lemma VoteRefusal(H: Hasher, m: Accounts, env: Env, voter: Key, id: Digest)
    requires Consistent(H, m)
    ensures var record, outcome := At(m, HashPda(id)), Apply(H, m, env, Vote(voter, HashPda(id), VotePda(voter, id)));
            && (record.owner != Program ==>
                  outcome == Failure(if record.lamports == 0 then AccountNotInitialized
                                     else AccountOwnedByWrongProgram))
            && (At(m, VotePda(voter, id)).owner == Program ==> outcome == Failure(AlreadyVoted))
            && (LiveMember(m, HashPda(id)) && At(m, VotePda(voter, id)).owner != Program ==>
                  var space := record.data.hash.space;
                  && (Plain(At(m, Wallet(voter))) && !CanVote(m, env, voter, id, space) ==>
                        outcome == Failure(InsufficientFunds))
                  && (CanVote(m, env, voter, id, space) && record.data.hash.voters + 1 >= U64_LIMIT ==>
                        outcome == Failure(InvalidInstructionData)))
  {
    assert Placed(H, m, HashPda(id));
    if At(m, VotePda(voter, id)).owner == Program {
      VoteImpliesRecord(H, m, voter, id);
    } else if LiveMember(m, HashPda(id)) {
      DepositOutcome(H, m, env, voter, id);
    }
  }

  // ----- Leaving

  /** Other voters stay behind and the refund would take the record below its rent. */
  ghost predicate HeldBack(m: Accounts, env: Env, voter: Key, id: Digest)
    requires At(m, HashPda(id)).data.HashData? && At(m, VotePda(voter, id)).data.VoteData?
  {
    var record, amount := At(m, HashPda(id)), At(m, VotePda(voter, id)).data.vote.amount;
    record.data.hash.voters > 1 && amount > 0 && record.lamports - amount < env.rent(record.data.hash.space)
  }

  /** What the record pays out: the vote's claim, or with the last vote everything. */
  ghost function RefundFor(m: Accounts, voter: Key, id: Digest): nat
    requires At(m, HashPda(id)).data.HashData? && At(m, VotePda(voter, id)).data.VoteData?
  {
    var record := At(m, HashPda(id));
    if record.data.hash.voters == 1 then record.lamports else At(m, VotePda(voter, id)).data.vote.amount
  }

  /** The vote is gone, and with the last one the record. */
  ghost predicate Withdrawn(m: Accounts, m': Accounts, voter: Key, id: Digest)
    requires At(m, HashPda(id)).data.HashData? && At(m, VotePda(voter, id)).data.VoteData?
  {
    var h, v := HashPda(id), VotePda(voter, id);
    var record, refund := At(m, h), RefundFor(m, voter, id);
    && record.data.hash.voters > 0 && refund <= record.lamports
    && At(m', v).owner == System && At(m', v).data == Empty && At(m', v).lamports == 0
    && At(m', h) == (if record.data.hash.voters == 1 then record.(owner := System, lamports := 0, data := Empty)
                     else record.(lamports := record.lamports - refund,
                                  data := HashData(record.data.hash.(voters := record.data.hash.voters - 1))))
  }

  /** The vote is withdrawn and the voter paid; nothing else changes. */
  ghost predicate Left(m: Accounts, m': Accounts, voter: Key, id: Digest)
    requires At(m, HashPda(id)).data.HashData? && At(m, VotePda(voter, id)).data.VoteData?
  {
    var v, w := VotePda(voter, id), Wallet(voter);
    && Withdrawn(m, m', voter, id)
    && ChangesOnly(m, m', {HashPda(id), v, w})
    && At(m', w)
       == At(m, w).(lamports := At(m, w).lamports + At(m, v).lamports + RefundFor(m, voter, id))
  }

  lemma ReleaseOutcome(H: Hasher, m: Accounts, env: Env, voter: Key, id: Digest)
    requires Consistent(H, m) && At(m, VotePda(voter, id)).owner == Program
    ensures LiveVote(m, voter, id) && LiveRecord(H, m, id)
    ensures Apply(H, m, env, Leave(voter, id)) == Released(H, m, env, voter, id)
    ensures var outcome := Released(H, m, env, voter, id);
            && (outcome.Success? <==> !HeldBack(m, env, voter, id))
            && (outcome.Success? ==> Left(m, outcome.value, voter, id))
            && (outcome.Failure? ==> outcome == Failure(AccountNotRentExempt))
  {
    LeaveOutcome(H, m, env, voter, id);
    if Released(H, m, env, voter, id).Success? {
      ReleaseEffect(H, m, env, At(m, HashPda(id)).data.hash, At(m, VotePda(voter, id)).data.vote, voter, Lamports);
    }
  }

  /** Only the voter's own vote for that very record can be withdrawn, and it can unless the
      refund would take a record with other voters below its rent. */
  lemma UnvoteOutcome(H: Hasher, m: Accounts, env: Env, voter: Key, hashAddress: Address, voteAddress: Address)
    requires Consistent(H, m)
    ensures var outcome := Apply(H, m, env, Unvote(voter, hashAddress, voteAddress));
            && (outcome.Success? <==>
                  && hashAddress.HashPda? && voteAddress == VotePda(voter, hashAddress.id)
                  && At(m, voteAddress).owner == Program
                  && LiveVote(m, voter, hashAddress.id) && LiveRecord(H, m, hashAddress.id)
                  && !HeldBack(m, env, voter, hashAddress.id))
            && (outcome.Success? ==> Left(m, outcome.value, voter, hashAddress.id))
  {
    assert Placed(H, m, hashAddress) && Placed(H, m, voteAddress);
    if hashAddress.HashPda? && voteAddress == VotePda(voter, hashAddress.id) && At(m, voteAddress).owner == Program {
      ReleaseOutcome(H, m, env, voter, hashAddress.id);
    }
  }
}
