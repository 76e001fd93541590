/** Whole runs: any sequence of instructions, with any clock and any rent schedule at each step. */
module Runs {
  import opened Outcomes
  import opened Encoding
  import opened Records
  import opened Errors
  import opened Ledger
  import opened Totals
  import opened LedgerEffects
  import opened LedgerInvariant
  import opened ProofGraph
  import opened AnchorBinding
  import opened Restoring
  import opened Instructions

  datatype Action = Action(env: Env, instruction: Instruction)

  function Run(H: Hasher, m: Accounts, actions: seq<Action>): Accounts {
    if actions == [] then m
    else
      var n := |actions| - 1;
      Step(H, Run(H, m, actions[..n]), actions[n].env, actions[n].instruction)
  }

  lemma RunsOnce(H: Hasher, m: Accounts, actions: seq<Action>, k: nat)
    requires k < |actions|
    ensures Run(H, m, actions[..k + 1]) == Step(H, Run(H, m, actions[..k]), actions[k].env, actions[k].instruction)
  {
    assert actions[..k + 1][..k] == actions[..k];
  }

  /** Before the program is first used: nothing is program-owned and no derived address has
      been allocated, though lamports may already sit anywhere. */
  ghost predicate Genesis(m: Accounts) {
    && (forall a :: At(m, a).owner != Program && (!a.Wallet? ==> Vacant(At(m, a))))
    && Total(m, Lamports) < U64_LIMIT
  }

  lemma GenesisConsistent(H: Hasher, m: Accounts)
    requires Genesis(m)
    ensures Consistent(H, m)
  {
    forall a
      ensures Placed(H, m, a)
    {
      assert At(m, a).owner != Program;
      if a.HashPda? {
        VotesAreCounted(m, a.id);
        assert forall b | b in m :: At(m, b).owner != Program;
        assert VotesFor(m, a.id) == {};
      }
    }
  }

  // ----- One instruction

  lemma LoadedIsLive(H: Hasher, m: Accounts, address: Address)
    requires Consistent(H, m) && At(m, address).owner == Program && At(m, address).data.HashData?
    ensures address.HashPda? && LiveRecord(H, m, address.id) && At(m, address).data.hash.record.Id(H) == address.id
  {
    assert Placed(H, m, address);
  }

  lemma RestoreKeeps(
    H: Hasher, m: Accounts, env: Env, payer: Key, anchor: Address, proof: seq<Link>, remaining: seq<Meta>)
    requires Consistent(H, m) && Restore(H, m, env, payer, anchor, proof, remaining).Success?
    ensures Consistent(H, Restore(H, m, env, payer, anchor, proof, remaining).value)
    ensures Total(Restore(H, m, env, payer, anchor, proof, remaining).value, Lamports) == Total(m, Lamports)
  {
    var bound := Bind(H, payer, proof, remaining).value;
    var order := Parse(H, proof).value;
    var existing := Existing(H, m, payer, proof, bound, |proof|).value;
    ParsedIndices(H, proof);
    CreationsExecutable(proof, order, bound, existing);
    TimestampsSet(H, proof, existing);
    ExecutionKeeps(H, m, env, payer, proof, bound, Creations(order, bound.Keys, existing));
  }

  lemma TimestampsSet(H: Hasher, proof: seq<Link>, existing: set<nat>)
    requires Accepted(H, proof, existing)
    ensures forall i | 0 <= i < |proof| :: proof[i].record.createdAt != 0
  {
    forall i | 0 <= i < |proof|
      ensures proof[i].record.createdAt != 0
    {
      CommittedAt(H, proof, existing, i);
    }
  }

  /** Releasing `user`'s vote for the live record `id`. */
  function Released(H: Hasher, m: Accounts, env: Env, user: Key, id: Digest): Result<Accounts, Error>
    requires At(m, HashPda(id)).data.HashData? && At(m, VotePda(user, id)).data.VoteData?
  {
    Release(H, m, env, HashPda(id), At(m, HashPda(id)).data.hash, VotePda(user, id), At(m, VotePda(user, id)).data.vote,
            user)
  }

  /** The record a branch creates, before any vote is released. */
  function Branched(H: Hasher, m: Accounts, env: Env, i: Instruction): Result<Accounts, Error>
    requires i.BranchFrom?
  {
    var record :- NewRecord(H, m, env, i);
    CreateWithInitialVote(H, m, env, i.user, i.newHashAddress, i.newVoteAddress, record)
  }

  lemma BranchCreates(H: Hasher, m: Accounts, env: Env, i: Instruction)
    requires Consistent(H, m) && i.BranchFrom? && Apply(H, m, env, i).Success?
    ensures Branched(H, m, env, i).Success? && Consistent(H, Branched(H, m, env, i).value)
    ensures Total(Branched(H, m, env, i).value, Lamports) == Total(m, Lamports)
    ensures !i.takeVote ==> Apply(H, m, env, i) == Branched(H, m, env, i)
  {
    CreationKeeps(H, m, env, i.user, i.newHashAddress, i.newVoteAddress, NewRecord(H, m, env, i).value);
  }

  lemma MigratedVote(H: Hasher, m: Accounts, env: Env, i: Instruction)
    requires Consistent(H, m) && i.BranchFrom? && i.takeVote && Apply(H, m, env, i).Success?
    ensures i.hashAddress.HashPda? && i.voteAddress == VotePda(i.user, i.hashAddress.id)
    ensures At(m, i.hashAddress).owner == Program && At(m, i.voteAddress).owner == Program
  {
    LoadedIsLive(H, m, i.hashAddress);
  }

  lemma BranchSparesLive(H: Hasher, m: Accounts, env: Env, i: Instruction, a: Address)
    requires i.BranchFrom? && Branched(H, m, env, i).Success? && At(m, a).owner == Program && !a.Wallet?
    ensures At(Branched(H, m, env, i).value, a) == At(m, a)
  {
    CreateWithInitialVoteEffect(
      H, m, env, i.user, i.newHashAddress, i.newVoteAddress, NewRecord(H, m, env, i).value, Lamports);
  }

  /** Creating the child leaves the parent and the vote to release as they were. */
  lemma BranchMigrates(H: Hasher, m: Accounts, env: Env, i: Instruction)
    requires Consistent(H, m) && i.BranchFrom? && i.takeVote && Apply(H, m, env, i).Success?
    ensures Branched(H, m, env, i).Success? && i.hashAddress.HashPda?
    ensures var created, parent := Branched(H, m, env, i).value, i.hashAddress.id;
            && Consistent(H, created)
            && At(created, VotePda(i.user, parent)).owner == Program
            && LiveRecord(H, created, parent) && LiveVote(created, i.user, parent)
            && Apply(H, m, env, i) == Released(H, created, env, i.user, parent)
  {
    BranchCreates(H, m, env, i);
    MigratedVote(H, m, env, i);
    BranchSparesLive(H, m, env, i, i.hashAddress);
    BranchSparesLive(H, m, env, i, i.voteAddress);
    VoteImpliesRecord(H, Branched(H, m, env, i).value, i.user, i.hashAddress.id);
  }

  lemma BranchKeeps(H: Hasher, m: Accounts, env: Env, i: Instruction)
    requires Consistent(H, m) && i.BranchFrom? && Apply(H, m, env, i).Success?
    ensures Consistent(H, Apply(H, m, env, i).value)
    ensures Total(Apply(H, m, env, i).value, Lamports) == Total(m, Lamports)
  {
    BranchCreates(H, m, env, i);
    if i.takeVote {
      BranchMigrates(H, m, env, i);
      ReleaseKeeps(H, Branched(H, m, env, i).value, env, i.user, i.hashAddress.id);
    }
  }

  lemma UnvoteKeeps(H: Hasher, m: Accounts, env: Env, i: Instruction)
    requires Consistent(H, m) && i.Unvote? && Apply(H, m, env, i).Success?
    ensures Consistent(H, Apply(H, m, env, i).value)
    ensures Total(Apply(H, m, env, i).value, Lamports) == Total(m, Lamports)
  {
    LoadedIsLive(H, m, i.hashAddress);
    VoteImpliesRecord(H, m, i.user, i.hashAddress.id);
    ReleaseKeeps(H, m, env, i.user, i.hashAddress.id);
  }

  /** Every successful instruction keeps the ledger consistent and conserves all lamports. */
  lemma ApplyKeeps(H: Hasher, m: Accounts, env: Env, i: Instruction)
    requires Consistent(H, m) && Apply(H, m, env, i).Success?
    ensures Consistent(H, Apply(H, m, env, i).value)
    ensures Total(Apply(H, m, env, i).value, Lamports) == Total(m, Lamports)
  {
    match i
    case Register(_, _, _, _) =>
      CreationKeeps(H, m, env, i.user, i.hashAddress, i.voteAddress, NewRecord(H, m, env, i).value);
    case HashAccount(_, _, _, _, _) =>
      CreationKeeps(H, m, env, i.user, i.hashAddress, i.voteAddress, NewRecord(H, m, env, i).value);
    case Compose(_, _, _, _, _) =>
      CreationKeeps(H, m, env, i.user, i.hashAddress, i.voteAddress, NewRecord(H, m, env, i).value);
    case BranchFrom(_, _, _, _, _, _, _) => BranchKeeps(H, m, env, i);
    case Vote(_, _, _) =>
      LoadedIsLive(H, m, i.hashAddress);
      AddVoteKeeps(H, m, env, i.user, i.hashAddress.id, i.voteAddress);
    case Unvote(_, _, _) => UnvoteKeeps(H, m, env, i);
    case RestoreProof(_, _, _, _) => RestoreKeeps(H, m, env, i.user, i.anchor, i.proof, i.remaining);
    case Donate(_, _, _) => DonationKeeps(H, m, i.user, i.to, i.amount);
  }

  /** Every reachable ledger is consistent and holds exactly the initial supply. */
  lemma {:induction false} RunsStayConsistent(H: Hasher, m: Accounts, actions: seq<Action>)
    requires Consistent(H, m)
    ensures Consistent(H, Run(H, m, actions))
    ensures Total(Run(H, m, actions), Lamports) == Total(m, Lamports)
    decreases |actions|
  {
    if actions != [] {
      var n := |actions| - 1;
      RunsStayConsistent(H, m, actions[..n]);
      var before := Run(H, m, actions[..n]);
      if Apply(H, before, actions[n].env, actions[n].instruction).Success? {
        ApplyKeeps(H, before, actions[n].env, actions[n].instruction);
      }
    }
  }
}
