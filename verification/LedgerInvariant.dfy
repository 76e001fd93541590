/** What every instruction keeps: each live record counts and covers exactly its votes, votes
    never outlive their record, and no lamport appears or disappears. */
module LedgerInvariant {
  import opened Encoding
  import opened Records
  import opened Ledger
  import opened Totals
  import opened LedgerEffects
  import opened Restoring

  ghost predicate Vacant(account: AccountInfo) {
    account.owner == System && account.data == Empty && !account.executable
  }

  /** A live record at its own address, with one counted vote account per voter and enough
      lamports for all their claims. */
  ghost predicate LiveRecord(H: Hasher, m: Accounts, id: Digest) {
    var account := At(m, HashPda(id));
    && account.owner == Program && !account.executable && account.data.HashData?
    && var state := account.data.hash;
    && state.record.Id(H) == id && state.record.createdAt != 0
    && state.space == state.record.source.Space()
    && state.voters == Total(m, Votes(id)) && state.voters > 0
    && account.lamports >= Total(m, Claims(id))
  }

  ghost predicate LiveVote(m: Accounts, voter: Key, id: Digest) {
    var account := At(m, VotePda(voter, id));
    && account.owner == Program && !account.executable && account.data.VoteData?
    && account.data.vote.voter == voter && account.data.vote.hashId == id
  }

  ghost predicate Placed(H: Hasher, m: Accounts, a: Address) {
    match a
    case Wallet(_) => At(m, a).owner != Program
    case HashPda(id) =>
      if At(m, a).owner == Program then LiveRecord(H, m, id) else Vacant(At(m, a)) && Total(m, Votes(id)) == 0
    case VotePda(voter, id) =>
      if At(m, a).owner == Program then LiveVote(m, voter, id) else Vacant(At(m, a))
  }

  ghost predicate Consistent(H: Hasher, m: Accounts) {
    && (forall a :: Placed(H, m, a))
    && Total(m, Lamports) < U64_LIMIT
  }

  /** A record is live exactly when some vote account for it exists, and its counter is the
      number of those accounts. */
  lemma RecordsLiveByVotes(H: Hasher, m: Accounts, id: Digest)
    requires Consistent(H, m)
    ensures At(m, HashPda(id)).owner == Program <==> exists voter :: At(m, VotePda(voter, id)).owner == Program
    ensures At(m, HashPda(id)).owner == Program ==>
              && At(m, HashPda(id)).data.HashData?
              && At(m, HashPda(id)).data.hash.voters == |VotesFor(m, id)|
  {
    assert Placed(H, m, HashPda(id));
    VotesAreCounted(m, id);
    if At(m, HashPda(id)).owner == Program {
      SomeVoteExists(m, id);
      var a :| a in VotesFor(m, id);
      assert At(m, VotePda(a.voter, id)).owner == Program;
    }
    if voter :| At(m, VotePda(voter, id)).owner == Program {
      ShareIsPart(m, Votes(id), VotePda(voter, id));
    }
  }

  lemma VoteImpliesRecord(H: Hasher, m: Accounts, voter: Key, id: Digest)
    requires Consistent(H, m) && At(m, VotePda(voter, id)).owner == Program
    ensures LiveVote(m, voter, id) && LiveRecord(H, m, id)
    ensures At(m, VotePda(voter, id)).data.vote.amount <= Total(m, Claims(id))
  {
    assert Placed(H, m, HashPda(id)) && Placed(H, m, VotePda(voter, id));
    ShareIsPart(m, Votes(id), VotePda(voter, id));
    ShareIsPart(m, Claims(id), VotePda(voter, id));
  }

  // ----- Preservation

  lemma CreationPlaces(
    H: Hasher, m: Accounts, env: Env, payer: Key, hashAddress: Address, voteAddress: Address, record: Record,
    a: Address)
    requires Consistent(H, m) && record.createdAt != 0
    requires CreateWithInitialVote(H, m, env, payer, hashAddress, voteAddress, record).Success?
    ensures Placed(H, CreateWithInitialVote(H, m, env, payer, hashAddress, voteAddress, record).value, a)
  {
    assert Placed(H, m, a);
    if a.Wallet? {
      CreateWithInitialVoteEffect(H, m, env, payer, hashAddress, voteAddress, record, Lamports);
    } else {
      assert Placed(H, m, HashPda(a.id));
      if Total(m, Votes(a.id)) == 0 {
        NoVotesNoClaims(H, m, a.id);
      }
      CreateWithInitialVoteEffect(H, m, env, payer, hashAddress, voteAddress, record, Votes(a.id));
      CreateWithInitialVoteEffect(H, m, env, payer, hashAddress, voteAddress, record, Claims(a.id));
    }
  }

  lemma CreationKeeps(
    H: Hasher, m: Accounts, env: Env, payer: Key, hashAddress: Address, voteAddress: Address, record: Record)
    requires Consistent(H, m) && record.createdAt != 0
    requires CreateWithInitialVote(H, m, env, payer, hashAddress, voteAddress, record).Success?
    ensures Consistent(H, CreateWithInitialVote(H, m, env, payer, hashAddress, voteAddress, record).value)
    ensures Total(CreateWithInitialVote(H, m, env, payer, hashAddress, voteAddress, record).value, Lamports)
         == Total(m, Lamports)
  {
    CreateWithInitialVoteEffect(H, m, env, payer, hashAddress, voteAddress, record, Lamports);
    forall a
      ensures Placed(H, CreateWithInitialVote(H, m, env, payer, hashAddress, voteAddress, record).value, a)
    {
      CreationPlaces(H, m, env, payer, hashAddress, voteAddress, record, a);
    }
  }

  lemma {:induction false} NoVotesNoClaims(H: Hasher, m: Accounts, id: Digest)
    requires Total(m, Votes(id)) == 0
    ensures Total(m, Claims(id)) == 0
    decreases |m|
  {
    if m != map[] {
      var a :| a in m && Total(m, Claims(id)) == Share(Claims(id), a, m[a]) + Total(m - {a}, Claims(id));
      TotalWithout(m, Votes(id), a);
      assert Share(Votes(id), a, m[a]) == 0 && Share(Claims(id), a, m[a]) == 0;
      NoVotesNoClaims(H, m - {a}, id);
    }
  }

  lemma AddVoteKeeps(H: Hasher, m: Accounts, env: Env, payer: Key, id: Digest, voteAddress: Address)
    requires Consistent(H, m) && At(m, HashPda(id)).owner == Program
    requires LiveRecord(H, m, id)
    requires AddVote(H, m, env, payer, HashPda(id), voteAddress, At(m, HashPda(id)).data.hash).Success?
    ensures var m' := AddVote(H, m, env, payer, HashPda(id), voteAddress, At(m, HashPda(id)).data.hash).value;
            Consistent(H, m') && Total(m', Lamports) == Total(m, Lamports)
  {
    var state := At(m, HashPda(id)).data.hash;
    var m' := AddVote(H, m, env, payer, HashPda(id), voteAddress, state).value;
    AddVoteEffect(H, m, env, payer, voteAddress, state, Lamports);
    forall a
      ensures Placed(H, m', a)
    {
      assert Placed(H, m, a);
      if !a.Wallet? {
        AddVoteEffect(H, m, env, payer, voteAddress, state, Votes(a.id));
        AddVoteEffect(H, m, env, payer, voteAddress, state, Claims(a.id));
      }
    }
  }

  lemma ReleaseKeeps(H: Hasher, m: Accounts, env: Env, user: Key, id: Digest)
    requires Consistent(H, m) && At(m, VotePda(user, id)).owner == Program && LiveVote(m, user, id)
    requires LiveRecord(H, m, id)
    requires Release(H, m, env, HashPda(id), At(m, HashPda(id)).data.hash,
                     VotePda(user, id), At(m, VotePda(user, id)).data.vote, user).Success?
    ensures var m' := Release(H, m, env, HashPda(id), At(m, HashPda(id)).data.hash,
                              VotePda(user, id), At(m, VotePda(user, id)).data.vote, user).value;
            Consistent(H, m') && Total(m', Lamports) == Total(m, Lamports)
  {
    var state, vote := At(m, HashPda(id)).data.hash, At(m, VotePda(user, id)).data.vote;
    var m' := Release(H, m, env, HashPda(id), state, VotePda(user, id), vote, user).value;
    ReleaseEffect(H, m, env, state, vote, user, Lamports);
    ReleaseEffect(H, m, env, state, vote, user, Votes(id));
    ReleaseEffect(H, m, env, state, vote, user, Claims(id));
    forall a
      ensures Placed(H, m', a)
    {
      assert Placed(H, m, a);
      if !a.Wallet? {
        ReleaseEffect(H, m, env, state, vote, user, Votes(a.id));
        ReleaseEffect(H, m, env, state, vote, user, Claims(a.id));
      }
    }
  }

  lemma DonationKeeps(H: Hasher, m: Accounts, user: Key, to: Address, amount: nat)
    requires Consistent(H, m) && SystemTransfer(m, Wallet(user), to, amount).Success?
    ensures var m' := SystemTransfer(m, Wallet(user), to, amount).value;
            Consistent(H, m') && Total(m', Lamports) == Total(m, Lamports)
  {
    var m' := SystemTransfer(m, Wallet(user), to, amount).value;
    SystemTransferEffect(m, Wallet(user), to, amount, Lamports);
    forall a
      ensures Placed(H, m', a)
    {
      assert Placed(H, m, a);
      if !a.Wallet? {
        SystemTransferEffect(m, Wallet(user), to, amount, Votes(a.id));
        SystemTransferEffect(m, Wallet(user), to, amount, Claims(a.id));
      }
    }
  }

  lemma {:induction false} ExecutionKeeps(
    H: Hasher, m: Accounts, env: Env, payer: Key, proof: seq<Link>, bound: Pairs, creations: seq<nat>)
    requires Consistent(H, m) && Executable(proof, bound, creations)
    requires forall k | 0 <= k < |creations| :: proof[creations[k]].record.createdAt != 0
    requires Execute(H, m, env, payer, proof, bound, creations).Success?
    ensures Consistent(H, Execute(H, m, env, payer, proof, bound, creations).value)
    ensures Total(Execute(H, m, env, payer, proof, bound, creations).value, Lamports) == Total(m, Lamports)
    decreases |creations|
  {
    if creations != [] {
      var n := |creations| - 1;
      ExecutionKeeps(H, m, env, payer, proof, bound, creations[..n]);
      var before, i := Execute(H, m, env, payer, proof, bound, creations[..n]).value, creations[n];
      CreationKeeps(H, before, env, payer, bound[i].hash.address, bound[i].vote.address, proof[i].record);
    }
  }
}
