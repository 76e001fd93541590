/** Refunds: a record always covers its claims, the last voter can always leave, and when the
    rent per size never changes every voter can, getting back what the vote cost. */
module Exit {
  import opened Outcomes
  import opened Encoding
  import opened Records
  import opened Errors
  import opened Ledger
  import opened Totals
  import opened LedgerEffects
  import opened LedgerInvariant
  import opened ProofGraph
  import opened Restoring
  import opened Instructions
  import opened Runs

  function Leave(voter: Key, id: Digest): Instruction {
    Unvote(voter, HashPda(id), VotePda(voter, id))
  }

  // ----- Under any rent schedule

  lemma CloseSucceeds(m: Accounts, account: Address, recipient: Address)
    requires At(m, account).owner == Program && account != recipient && Total(m, Lamports) < U64_LIMIT
    ensures CloseProgramAccount(m, account, recipient).Success?
  {
    TwoSharesArePart(m, Lamports, account, recipient);
  }

  lemma TransferOutSucceeds(m: Accounts, account: Address, recipient: Address, amount: nat)
    requires At(m, account).owner == Program && account != recipient && Total(m, Lamports) < U64_LIMIT
    requires amount <= At(m, account).lamports
    ensures TransferFromProgramAccount(m, account, recipient, amount).Success?
  {
    TwoSharesArePart(m, Lamports, account, recipient);
  }

  /** Leaving fails only when other voters remain and the refund would take the record below
      its current rent minimum.  In particular funds never run short. */
  lemma LeaveOutcome(H: Hasher, m: Accounts, env: Env, voter: Key, id: Digest)
    requires Consistent(H, m) && At(m, VotePda(voter, id)).owner == Program
    ensures LiveVote(m, voter, id) && LiveRecord(H, m, id)
    ensures var record, vote := At(m, HashPda(id)), At(m, VotePda(voter, id)).data.vote;
            && vote.amount <= record.lamports
            && (Apply(H, m, env, Leave(voter, id)).Success? <==>
                  || record.data.hash.voters == 1
                  || vote.amount == 0
                  || record.lamports - vote.amount >= env.rent(record.data.hash.space))
            && (Apply(H, m, env, Leave(voter, id)).Failure? ==>
                  Apply(H, m, env, Leave(voter, id)) == Failure(AccountNotRentExempt))
  {
    VoteImpliesRecord(H, m, voter, id);
    var h, v, w := HashPda(id), VotePda(voter, id), Wallet(voter);
    var state, vote := At(m, h).data.hash, At(m, v).data.vote;
    CloseSucceeds(m, v, w);
    CloseEffect(m, v, w, Lamports);
    var closed := CloseProgramAccount(m, v, w).value;
    if state.voters == 1 {
      CloseSucceeds(closed, h, w);
    } else {
      var left := closed[h := At(closed, h).(data := HashData(state.(voters := state.voters - 1)))];
      TotalUpdated(closed, Lamports, h, left[h]);
      TransferOutSucceeds(left, h, w, vote.amount);
    }
  }

  // ----- When the rent per size never changes

  /** `exact` additionally says that no stray lamports sit at derived addresses. */
  ghost predicate Priced(m: Accounts, rent: nat -> u64, exact: bool, a: Address) {
    match a
    case Wallet(_) => true
    case HashPda(id) => exact ==>
      At(m, a).lamports == if At(m, a).owner == Program then Total(m, Claims(id)) else 0
    case VotePda(_, id) =>
      if At(m, a).owner == Program then
        && At(m, a).data.VoteData? && At(m, HashPda(id)).data.HashData?
        && At(m, a).data.vote.amount == rent(At(m, HashPda(id)).data.hash.space)
        && At(m, a).lamports >= rent(VOTE_INFO_SPACE)
        && (exact ==> At(m, a).lamports == rent(VOTE_INFO_SPACE))
      else exact ==> At(m, a).lamports == 0
  }

  ghost predicate AllPriced(m: Accounts, rent: nat -> u64, exact: bool) {
    forall a :: Priced(m, rent, exact, a)
  }

  lemma {:induction false} EqualClaims(m: Accounts, id: Digest, amount: nat)
    requires forall a | a in m :: Share(Claims(id), a, m[a]) == if Share(Votes(id), a, m[a]) == 0 then 0 else amount
    ensures Total(m, Claims(id)) == amount * Total(m, Votes(id))
    decreases |m|
  {
    if m != map[] {
      var a :| a in m && Total(m, Claims(id)) == Share(Claims(id), a, m[a]) + Total(m - {a}, Claims(id));
      TotalWithout(m, Votes(id), a);
      EqualClaims(m - {a}, id, amount);
      OneMore(amount, Total(m - {a}, Votes(id)));
    }
  }

  lemma OneMore(amount: nat, n: nat)
    ensures amount * (n + 1) == amount + amount * n && amount * 0 == 0
  {
  }

  lemma ClaimsAreVotesTimesRent(H: Hasher, m: Accounts, rent: nat -> u64, exact: bool, id: Digest)
    requires Consistent(H, m) && AllPriced(m, rent, exact) && LiveRecord(H, m, id)
    ensures Total(m, Claims(id)) == rent(At(m, HashPda(id)).data.hash.space) * At(m, HashPda(id)).data.hash.voters
  {
    var amount := rent(At(m, HashPda(id)).data.hash.space);
    forall a | a in m
      ensures Share(Claims(id), a, m[a]) == if Share(Votes(id), a, m[a]) == 0 then 0 else amount
    {
      assert Priced(m, rent, exact, a) && At(m, a) == m[a];
    }
    EqualClaims(m, id, amount);
  }

  lemma CreatedRecordPriced(
    H: Hasher, m: Accounts, env: Env, exact: bool, payer: Key, hashAddress: Address, voteAddress: Address,
    record: Record, id: Digest)
    requires Consistent(H, m) && AllPriced(m, env.rent, exact)
    requires CreateWithInitialVote(H, m, env, payer, hashAddress, voteAddress, record).Success?
    ensures var m' := CreateWithInitialVote(H, m, env, payer, hashAddress, voteAddress, record).value;
            Priced(m', env.rent, exact, HashPda(id))
  {
    assert Priced(m, env.rent, exact, HashPda(id));
    assert Placed(H, m, HashPda(record.Id(H)));
    NoVotesNoClaims(H, m, record.Id(H));
    CreateWithInitialVoteEffect(H, m, env, payer, hashAddress, voteAddress, record, Claims(id));
  }

  lemma CreatedVotePriced(
    H: Hasher, m: Accounts, env: Env, exact: bool, payer: Key, hashAddress: Address, voteAddress: Address,
    record: Record, voter: Key, id: Digest)
    requires Consistent(H, m) && AllPriced(m, env.rent, exact)
    requires CreateWithInitialVote(H, m, env, payer, hashAddress, voteAddress, record).Success?
    ensures var m' := CreateWithInitialVote(H, m, env, payer, hashAddress, voteAddress, record).value;
            Priced(m', env.rent, exact, VotePda(voter, id))
  {
    var vote := VotePda(voter, id);
    CreateWithInitialVoteEffect(H, m, env, payer, hashAddress, voteAddress, record, Lamports);
    assert Priced(m, env.rent, exact, vote);
    if id == record.Id(H) && voter != payer {
      assert Placed(H, m, HashPda(id));
      NoVotesNoClaims(H, m, id);
      ShareIsPart(m, Votes(id), vote);
    }
  }

  lemma CreationPriced(
    H: Hasher, m: Accounts, env: Env, exact: bool, payer: Key, hashAddress: Address, voteAddress: Address,
    record: Record)
    requires Consistent(H, m) && AllPriced(m, env.rent, exact)
    requires CreateWithInitialVote(H, m, env, payer, hashAddress, voteAddress, record).Success?
    ensures AllPriced(CreateWithInitialVote(H, m, env, payer, hashAddress, voteAddress, record).value, env.rent, exact)
  {
    var m' := CreateWithInitialVote(H, m, env, payer, hashAddress, voteAddress, record).value;
    forall a
      ensures Priced(m', env.rent, exact, a)
    {
      match a
      case Wallet(_) =>
      case HashPda(id) =>
        CreatedRecordPriced(H, m, env, exact, payer, hashAddress, voteAddress, record, id);
      case VotePda(voter, id) =>
        CreatedVotePriced(H, m, env, exact, payer, hashAddress, voteAddress, record, voter, id);
    }
  }

  lemma AddVotePriced(H: Hasher, m: Accounts, env: Env, exact: bool, payer: Key, id: Digest, voteAddress: Address)
    requires Consistent(H, m) && AllPriced(m, env.rent, exact) && LiveRecord(H, m, id)
    requires AddVote(H, m, env, payer, HashPda(id), voteAddress, At(m, HashPda(id)).data.hash).Success?
    ensures AllPriced(AddVote(H, m, env, payer, HashPda(id), voteAddress, At(m, HashPda(id)).data.hash).value, env.rent,
                      exact)
  {
    var state := At(m, HashPda(id)).data.hash;
    var m' := AddVote(H, m, env, payer, HashPda(id), voteAddress, state).value;
    AddVoteEffect(H, m, env, payer, voteAddress, state, Lamports);
    assert Priced(m, env.rent, exact, VotePda(payer, id));
    forall a
      ensures Priced(m', env.rent, exact, a)
    {
      assert Priced(m, env.rent, exact, a);
      if a.HashPda? {
        AddVoteEffect(H, m, env, payer, voteAddress, state, Claims(a.id));
      }
    }
  }

  lemma ReleasePriced(H: Hasher, m: Accounts, env: Env, exact: bool, user: Key, id: Digest)
    requires Consistent(H, m) && AllPriced(m, env.rent, exact)
    requires At(m, VotePda(user, id)).owner == Program && LiveVote(m, user, id) && LiveRecord(H, m, id)
    requires Release(H, m, env, HashPda(id), At(m, HashPda(id)).data.hash,
                     VotePda(user, id), At(m, VotePda(user, id)).data.vote, user).Success?
    ensures AllPriced(Release(H, m, env, HashPda(id), At(m, HashPda(id)).data.hash, VotePda(user, id),
                              At(m, VotePda(user, id)).data.vote, user).value, env.rent, exact)
  {
    var state, vote := At(m, HashPda(id)).data.hash, At(m, VotePda(user, id)).data.vote;
    var m' := Release(H, m, env, HashPda(id), state, VotePda(user, id), vote, user).value;
    ReleaseEffect(H, m, env, state, vote, user, Lamports);
    forall a
      ensures Priced(m', env.rent, exact, a)
    {
      assert Priced(m, env.rent, exact, a);
      if a.HashPda? {
        ReleaseEffect(H, m, env, state, vote, user, Claims(a.id));
      } else if a.VotePda? && a.id == id && a != VotePda(user, id) {
        TwoSharesArePart(m, Votes(id), a, VotePda(user, id));
      }
    }
  }

  lemma DonationPriced(m: Accounts, rent: nat -> u64, exact: bool, user: Key, to: Address, amount: nat)
    requires AllPriced(m, rent, exact) && SystemTransfer(m, Wallet(user), to, amount).Success?
    requires exact ==> to.Wallet?
    ensures AllPriced(SystemTransfer(m, Wallet(user), to, amount).value, rent, exact)
  {
    var m' := SystemTransfer(m, Wallet(user), to, amount).value;
    SystemTransferEffect(m, Wallet(user), to, amount, Lamports);
    forall a
      ensures Priced(m', rent, exact, a)
    {
      assert Priced(m, rent, exact, a);
      if a.HashPda? {
        SystemTransferEffect(m, Wallet(user), to, amount, Claims(a.id));
      }
    }
  }

  lemma {:induction false} ExecutionPriced(
    H: Hasher, m: Accounts, env: Env, exact: bool, payer: Key, proof: seq<Link>, bound: Pairs, creations: seq<nat>)
    requires Consistent(H, m) && AllPriced(m, env.rent, exact) && Executable(proof, bound, creations)
    requires forall k | 0 <= k < |creations| :: proof[creations[k]].record.createdAt != 0
    requires Execute(H, m, env, payer, proof, bound, creations).Success?
    ensures AllPriced(Execute(H, m, env, payer, proof, bound, creations).value, env.rent, exact)
    decreases |creations|
  {
    if creations != [] {
      var n := |creations| - 1;
      ExecutionKeeps(H, m, env, payer, proof, bound, creations[..n]);
      ExecutionPriced(H, m, env, exact, payer, proof, bound, creations[..n]);
      var before, i := Execute(H, m, env, payer, proof, bound, creations[..n]).value, creations[n];
      CreationPriced(H, before, env, exact, payer, bound[i].hash.address, bound[i].vote.address, proof[i].record);
    }
  }

  /** Nobody sends lamports to a derived address. */
  predicate NoStray(i: Instruction) {
    i.Donate? ==> i.to.Wallet?
  }

  lemma BranchPriced(H: Hasher, m: Accounts, env: Env, exact: bool, i: Instruction)
    requires Consistent(H, m) && AllPriced(m, env.rent, exact) && i.BranchFrom? && Apply(H, m, env, i).Success?
    ensures AllPriced(Apply(H, m, env, i).value, env.rent, exact)
  {
    BranchCreates(H, m, env, i);
    CreationPriced(H, m, env, exact, i.user, i.newHashAddress, i.newVoteAddress, NewRecord(H, m, env, i).value);
    if i.takeVote {
      BranchMigrates(H, m, env, i);
      ReleasePriced(H, Branched(H, m, env, i).value, env, exact, i.user, i.hashAddress.id);
    }
  }

  lemma RestorePriced(H: Hasher, m: Accounts, env: Env, exact: bool, i: Instruction)
    requires Consistent(H, m) && AllPriced(m, env.rent, exact) && i.RestoreProof? && Apply(H, m, env, i).Success?
    ensures AllPriced(Apply(H, m, env, i).value, env.rent, exact)
  {
    var bound := Bind(H, i.user, i.proof, i.remaining).value;
    var order := Parse(H, i.proof).value;
    var existing := Existing(H, m, i.user, i.proof, bound, |i.proof|).value;
    ParsedIndices(H, i.proof);
    CreationsExecutable(i.proof, order, bound, existing);
    TimestampsSet(H, i.proof, existing);
    ExecutionPriced(H, m, env, exact, i.user, i.proof, bound, Creations(order, bound.Keys, existing));
  }

  lemma ApplyPriced(H: Hasher, m: Accounts, env: Env, exact: bool, i: Instruction)
    requires Consistent(H, m) && AllPriced(m, env.rent, exact) && Apply(H, m, env, i).Success?
    requires exact ==> NoStray(i)
    ensures AllPriced(Apply(H, m, env, i).value, env.rent, exact)
  {
    match i
    case Register(_, _, _, _) =>
      CreationPriced(H, m, env, exact, i.user, i.hashAddress, i.voteAddress, NewRecord(H, m, env, i).value);
    case HashAccount(_, _, _, _, _) =>
      CreationPriced(H, m, env, exact, i.user, i.hashAddress, i.voteAddress, NewRecord(H, m, env, i).value);
    case Compose(_, _, _, _, _) =>
      CreationPriced(H, m, env, exact, i.user, i.hashAddress, i.voteAddress, NewRecord(H, m, env, i).value);
    case BranchFrom(_, _, _, _, _, _, _) => BranchPriced(H, m, env, exact, i);
    case Vote(_, _, _) =>
      LoadedIsLive(H, m, i.hashAddress);
      AddVotePriced(H, m, env, exact, i.user, i.hashAddress.id, i.voteAddress);
    case Unvote(_, _, _) =>
      LoadedIsLive(H, m, i.hashAddress);
      VoteImpliesRecord(H, m, i.user, i.hashAddress.id);
      ReleasePriced(H, m, env, exact, i.user, i.hashAddress.id);
    case RestoreProof(_, _, _, _) => RestorePriced(H, m, env, exact, i);
    case Donate(_, _, _) => DonationPriced(m, env.rent, exact, i.user, i.to, i.amount);
  }

  lemma {:induction false} RunsStayPriced(H: Hasher, m: Accounts, rent: nat -> u64, exact: bool, actions: seq<Action>)
    requires Consistent(H, m) && AllPriced(m, rent, exact)
    requires forall k | 0 <= k < |actions| :: actions[k].env.rent == rent && (exact ==> NoStray(actions[k].instruction))
    ensures AllPriced(Run(H, m, actions), rent, exact)
    decreases |actions|
  {
    if actions != [] {
      var n := |actions| - 1;
      RunsStayConsistent(H, m, actions[..n]);
      RunsStayPriced(H, m, rent, exact, actions[..n]);
      var before := Run(H, m, actions[..n]);
      if Apply(H, before, actions[n].env, actions[n].instruction).Success? {
        ApplyPriced(H, before, actions[n].env, exact, actions[n].instruction);
      }
    }
  }

  // ----- Leaving pays back what joining cost

  /** The rent of a record and of a vote account: what one vote costs without prefunding. */
  ghost function VoteCost(rent: nat -> u64, space: nat): nat {
    rent(space) + rent(VOTE_INFO_SPACE)
  }

  /** Creating a record costs at most one vote; exactly one when nothing was prefunded. */
  lemma CreationCost(
    H: Hasher, m: Accounts, env: Env, payer: Key, hashAddress: Address, voteAddress: Address, record: Record)
    requires CreateWithInitialVote(H, m, env, payer, hashAddress, voteAddress, record).Success?
    ensures var m' := CreateWithInitialVote(H, m, env, payer, hashAddress, voteAddress, record).value;
            var cost := At(m, Wallet(payer)).lamports - At(m', Wallet(payer)).lamports;
            && 0 <= cost <= VoteCost(env.rent, record.source.Space())
            && (At(m, hashAddress).lamports == 0 && At(m, voteAddress).lamports == 0 ==>
                  cost == VoteCost(env.rent, record.source.Space()))
  {
    CreateWithInitialVoteEffect(H, m, env, payer, hashAddress, voteAddress, record, Lamports);
  }

  lemma VotingCost(H: Hasher, m: Accounts, env: Env, payer: Key, voteAddress: Address, state: HashState)
    requires AddVote(H, m, env, payer, HashPda(state.record.Id(H)), voteAddress, state).Success?
    ensures var m' := AddVote(H, m, env, payer, HashPda(state.record.Id(H)), voteAddress, state).value;
            var cost := At(m, Wallet(payer)).lamports - At(m', Wallet(payer)).lamports;
            && 0 <= cost <= VoteCost(env.rent, state.space)
            && (At(m, voteAddress).lamports == 0 ==> cost == VoteCost(env.rent, state.space))
  {
    AddVoteEffect(H, m, env, payer, voteAddress, state, Lamports);
  }

  /** With a fixed rent schedule every voter can leave, and gets back at least the full cost
      of a vote; exactly that cost when no stray lamports were sent. */
  lemma EveryVoterCanLeave(H: Hasher, m: Accounts, env: Env, exact: bool, voter: Key, id: Digest)
    requires Consistent(H, m) && AllPriced(m, env.rent, exact) && At(m, VotePda(voter, id)).owner == Program
    ensures Apply(H, m, env, Leave(voter, id)).Success? && LiveRecord(H, m, id)
    ensures var m' := Apply(H, m, env, Leave(voter, id)).value;
            var paid, cost := At(m', Wallet(voter)).lamports - At(m, Wallet(voter)).lamports,
                              VoteCost(env.rent, At(m, HashPda(id)).data.hash.space);
            paid >= cost && (exact ==> paid == cost)
  {
    LeaveOutcome(H, m, env, voter, id);
    var h, v := HashPda(id), VotePda(voter, id);
    var state, vote := At(m, h).data.hash, At(m, v).data.vote;
    assert Priced(m, env.rent, exact, v) && Priced(m, env.rent, exact, h);
    ClaimsAreVotesTimesRent(H, m, env.rent, exact, id);
    AtLeastTwice(env.rent(state.space), state.voters);
    assert state.voters == 1 || At(m, h).lamports >= 2 * env.rent(state.space);
    ReleaseEffect(H, m, env, state, vote, voter, Lamports);
  }

  lemma AtLeastTwice(r: nat, n: nat)
    requires n > 0
    ensures r * n >= r && (n >= 2 ==> r * n >= 2 * r) && (n == 1 ==> r * n == r)
  {
  }

  /** Every action sees the same rent schedule.  `exact` additionally says that derived addresses
      start empty and nobody ever sends lamports to them. */
  ghost predicate FixedRent(m: Accounts, rent: nat -> u64, exact: bool, actions: seq<Action>) {
    && (forall k | 0 <= k < |actions| :: actions[k].env.rent == rent && (exact ==> NoStray(actions[k].instruction)))
    && (exact ==> forall a: Address :: !a.Wallet? ==> At(m, a).lamports == 0)
  }

  lemma ReachablePriced(H: Hasher, m: Accounts, rent: nat -> u64, exact: bool, actions: seq<Action>)
    requires Genesis(m) && FixedRent(m, rent, exact, actions)
    ensures AllPriced(Run(H, m, actions), rent, exact)
  {
    GenesisConsistent(H, m);
    forall a
      ensures Priced(m, rent, exact, a)
    {
      assert At(m, a).owner != Program;
    }
    RunsStayPriced(H, m, rent, exact, actions);
  }

  /** In every ledger reachable from genesis with a fixed rent schedule every voter can leave and
      gets back at least the full cost of a vote; exactly that cost without stray lamports. */
  lemma EveryReachableVoterCanLeave(
    H: Hasher, m: Accounts, rent: nat -> u64, exact: bool, actions: seq<Action>, env: Env, voter: Key, id: Digest)
    requires Genesis(m) && FixedRent(m, rent, exact, actions) && env.rent == rent
    requires At(Run(H, m, actions), VotePda(voter, id)).owner == Program
    ensures var last := Run(H, m, actions);
            && Apply(H, last, env, Leave(voter, id)).Success? && LiveRecord(H, last, id)
            && var left := Apply(H, last, env, Leave(voter, id)).value;
               var paid := At(left, Wallet(voter)).lamports - At(last, Wallet(voter)).lamports;
               var cost := VoteCost(rent, At(last, HashPda(id)).data.hash.space);
               paid >= cost && (exact ==> paid == cost)
  {
    GenesisConsistent(H, m);
    RunsStayConsistent(H, m, actions);
    ReachablePriced(H, m, rent, exact, actions);
    EveryVoterCanLeave(H, Run(H, m, actions), env, exact, voter, id);
  }
}
