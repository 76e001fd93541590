/** What joining a record costs in a run is what leaving it pays back, whatever happens in
    between. */
module Payback {
  import opened Encoding
  import opened Records
  import opened Ledger
  import opened Totals
  import opened LedgerEffects
  import opened LedgerInvariant
  import opened RestoreEffects
  import opened Instructions
  import opened Runs
  import opened Exit
  import opened Funding

  // ----- A live record never changes

  /** A record that is live before and after is the same record. */
  ghost predicate SameRecord(m: Accounts, m': Accounts, id: Digest) {
    LiveRecordAt(m, HashPda(id)).Some? && LiveRecordAt(m', HashPda(id)).Some? ==>
      LiveRecordAt(m, HashPda(id)) == LiveRecordAt(m', HashPda(id))
  }

  lemma CreationSpares(
    H: Hasher, m: Accounts, env: Env, payer: Key, hashAddress: Address, voteAddress: Address, record: Record,
    id: Digest)
    requires CreateWithInitialVote(H, m, env, payer, hashAddress, voteAddress, record).Success?
    requires At(m, HashPda(id)).owner == Program
    ensures At(CreateWithInitialVote(H, m, env, payer, hashAddress, voteAddress, record).value, HashPda(id))
         == At(m, HashPda(id))
  {
    CreateWithInitialVoteEffect(H, m, env, payer, hashAddress, voteAddress, record, Lamports);
  }

  lemma RestoreSpares(H: Hasher, m: Accounts, env: Env, i: Instruction, id: Digest)
    requires i.RestoreProof? && Apply(H, m, env, i).Success? && At(m, HashPda(id)).owner == Program
    ensures At(Apply(H, m, env, i).value, HashPda(id)) == At(m, HashPda(id))
  {
    var created := Created(H, m, i.user, i.proof, i.remaining);
    RestoreIsExact(H, m, env, i.user, i.anchor, i.proof, i.remaining);
    TouchedAreTheirs(H, i.user, i.proof, created, id);
    forall k | 0 <= k < |created|
      ensures i.proof[created[k]].record.Id(H) != id
    {
      assert created[k] in created;
    }
  }

  lemma ReleaseSpares(H: Hasher, m: Accounts, env: Env, user: Key, released: Digest, id: Digest)
    requires Consistent(H, m) && At(m, VotePda(user, released)).owner == Program
    requires LiveRecord(H, m, released) && LiveVote(m, user, released) && Released(H, m, env, user, released).Success?
    ensures SameRecord(m, Released(H, m, env, user, released).value, id)
  {
    ReleaseEffect(H, m, env, At(m, HashPda(released)).data.hash, At(m, VotePda(user, released)).data.vote, user,
                  Lamports);
  }

  lemma BranchSpares(H: Hasher, m: Accounts, env: Env, i: Instruction, id: Digest)
    requires Consistent(H, m) && i.BranchFrom? && Apply(H, m, env, i).Success? && At(m, HashPda(id)).owner == Program
    ensures SameRecord(m, Apply(H, m, env, i).value, id)
  {
    BranchCreates(H, m, env, i);
    CreationSpares(H, m, env, i.user, i.newHashAddress, i.newVoteAddress, NewRecord(H, m, env, i).value, id);
    if i.takeVote {
      BranchMigrates(H, m, env, i);
      ReleaseSpares(H, Branched(H, m, env, i).value, env, i.user, i.hashAddress.id, id);
    }
  }

  lemma VotingSpares(H: Hasher, m: Accounts, env: Env, i: Instruction, id: Digest)
    requires Consistent(H, m) && (i.Vote? || i.Unvote?) && Apply(H, m, env, i).Success?
    ensures SameRecord(m, Apply(H, m, env, i).value, id)
  {
    LoadedIsLive(H, m, i.hashAddress);
    if i.Vote? {
      AddVoteEffect(H, m, env, i.user, i.voteAddress, At(m, i.hashAddress).data.hash, Lamports);
    } else {
      VoteImpliesRecord(H, m, i.user, i.hashAddress.id);
      ReleaseSpares(H, m, env, i.user, i.hashAddress.id, id);
    }
  }

  /** No instruction replaces a live record: it can only close it. */
  lemma LiveRecordsNeverChange(H: Hasher, m: Accounts, env: Env, i: Instruction, id: Digest)
    requires Consistent(H, m)
    ensures SameRecord(m, Step(H, m, env, i), id)
  {
    if At(m, HashPda(id)).owner == Program && Apply(H, m, env, i).Success? {
      match i
      case Register(_, _, _, _) =>
        CreationSpares(H, m, env, i.user, i.hashAddress, i.voteAddress, NewRecord(H, m, env, i).value, id);
      case HashAccount(_, _, _, _, _) =>
        CreationSpares(H, m, env, i.user, i.hashAddress, i.voteAddress, NewRecord(H, m, env, i).value, id);
      case Compose(_, _, _, _, _) =>
        CreationSpares(H, m, env, i.user, i.hashAddress, i.voteAddress, NewRecord(H, m, env, i).value, id);
      case BranchFrom(_, _, _, _, _, _, _) => BranchSpares(H, m, env, i, id);
      case RestoreProof(_, _, _, _) => RestoreSpares(H, m, env, i, id);
      case Donate(_, _, _) => SystemTransferEffect(m, Wallet(i.user), i.to, i.amount, Lamports);
      case _ => VotingSpares(H, m, env, i, id);
    }
  }

  // ----- The cost of joining

  /** Instructions that give their user exactly one vote. */
  predicate Joins(i: Instruction) {
    i.Register? || i.HashAccount? || i.Compose? || i.Vote? || (i.BranchFrom? && !i.takeVote)
  }

  ghost predicate Charged(m: Accounts, m': Accounts, rent: nat -> u64, exact: bool, voter: Key, id: Digest) {
    && At(m', HashPda(id)).owner == Program && At(m', HashPda(id)).data.HashData?
    && var cost, full := At(m, Wallet(voter)).lamports - At(m', Wallet(voter)).lamports,
                         VoteCost(rent, At(m', HashPda(id)).data.hash.space);
       cost <= full && (exact ==> cost == full)
  }

  lemma CreationCharges(
    H: Hasher, m: Accounts, env: Env, exact: bool, payer: Key, hashAddress: Address, voteAddress: Address,
    record: Record,
    voter: Key, id: Digest)
    requires AllPriced(m, env.rent, exact)
    requires CreateWithInitialVote(H, m, env, payer, hashAddress, voteAddress, record).Success?
    requires At(m, VotePda(voter, id)).owner != Program
    requires var m' := CreateWithInitialVote(H, m, env, payer, hashAddress, voteAddress, record).value;
             At(m', VotePda(voter, id)).owner == Program
    ensures Charged(m, CreateWithInitialVote(H, m, env, payer, hashAddress, voteAddress, record).value, env.rent, exact,
                    voter, id)
  {
    CreateWithInitialVoteEffect(H, m, env, payer, hashAddress, voteAddress, record, Lamports);
    assert Priced(m, env.rent, exact, HashPda(id)) && Priced(m, env.rent, exact, VotePda(voter, id));
    CreationCost(H, m, env, payer, hashAddress, voteAddress, record);
  }

  lemma VoteCharges(H: Hasher, m: Accounts, env: Env, exact: bool, i: Instruction, voter: Key, id: Digest)
    requires Consistent(H, m) && AllPriced(m, env.rent, exact) && i.Vote? && Apply(H, m, env, i).Success?
    requires At(m, VotePda(voter, id)).owner != Program
    requires At(Apply(H, m, env, i).value, VotePda(voter, id)).owner == Program
    ensures Charged(m, Apply(H, m, env, i).value, env.rent, exact, voter, id)
  {
    LoadedIsLive(H, m, i.hashAddress);
    AddVoteEffect(H, m, env, i.user, i.voteAddress, At(m, i.hashAddress).data.hash, Lamports);
    assert Priced(m, env.rent, exact, VotePda(voter, id));
    VotingCost(H, m, env, i.user, i.voteAddress, At(m, i.hashAddress).data.hash);
  }

  /** Joining charges at most one vote, exactly that without stray lamports. */
  lemma JoiningCharges(H: Hasher, m: Accounts, env: Env, exact: bool, i: Instruction, voter: Key, id: Digest)
    requires Consistent(H, m) && AllPriced(m, env.rent, exact) && Joins(i)
    requires At(m, VotePda(voter, id)).owner != Program && At(Step(H, m, env, i), VotePda(voter, id)).owner == Program
    ensures Charged(m, Step(H, m, env, i), env.rent, exact, voter, id)
  {
    if i.Vote? {
      VoteCharges(H, m, env, exact, i, voter, id);
    } else {
      var record := NewRecord(H, m, env, i).value;
      if i.BranchFrom? {
        CreationCharges(H, m, env, exact, i.user, i.newHashAddress, i.newVoteAddress, record, voter, id);
      } else {
        CreationCharges(H, m, env, exact, i.user, i.hashAddress, i.voteAddress, record, voter, id);
      }
    }
  }

  // ----- Joining and leaving in one run

  /** The vote is live after each of the actions from number `from` on. */
  ghost predicate VoteHeld(H: Hasher, m: Accounts, actions: seq<Action>, from: nat, voter: Key, id: Digest) {
    forall k | from <= k <= |actions| :: At(Run(H, m, actions[..k]), VotePda(voter, id)).owner == Program
  }

  lemma HeldIsLive(H: Hasher, m: Accounts, actions: seq<Action>, from: nat, k: nat, voter: Key, id: Digest)
    requires Consistent(H, m) && VoteHeld(H, m, actions, from, voter, id) && from <= k <= |actions|
    ensures Consistent(H, Run(H, m, actions[..k])) && LiveRecord(H, Run(H, m, actions[..k]), id)
  {
    RunsStayConsistent(H, m, actions[..k]);
    VoteImpliesRecord(H, Run(H, m, actions[..k]), voter, id);
  }

  lemma HeldOneStep(H: Hasher, m: Accounts, actions: seq<Action>, from: nat, k: nat, voter: Key, id: Digest)
    requires Consistent(H, m) && VoteHeld(H, m, actions, from, voter, id) && from <= k < |actions|
    ensures LiveRecordAt(Run(H, m, actions[..k + 1]), HashPda(id)).Some?
    ensures LiveRecordAt(Run(H, m, actions[..k + 1]), HashPda(id)) == LiveRecordAt(Run(H, m, actions[..k]), HashPda(id))
  {
    HeldIsLive(H, m, actions, from, k, voter, id);
    HeldIsLive(H, m, actions, from, k + 1, voter, id);
    RunsOnce(H, m, actions, k);
    LiveRecordsNeverChange(H, Run(H, m, actions[..k]), actions[k].env, actions[k].instruction, id);
  }

  /** While one of its votes lives, a record stays what it was. */
  lemma {:induction false} HeldRecordStays(
    H: Hasher, m: Accounts, actions: seq<Action>, from: nat, k: nat, voter: Key, id: Digest)
    requires Consistent(H, m) && VoteHeld(H, m, actions, from, voter, id) && from <= k <= |actions|
    ensures LiveRecordAt(Run(H, m, actions[..k]), HashPda(id)).Some?
    ensures LiveRecordAt(Run(H, m, actions[..k]), HashPda(id)) == LiveRecordAt(Run(H, m, actions[..from]), HashPda(id))
    decreases k
  {
    if from < k {
      HeldRecordStays(H, m, actions, from, k - 1, voter, id);
      HeldOneStep(H, m, actions, from, k - 1, voter, id);
    } else {
      HeldIsLive(H, m, actions, from, k, voter, id);
    }
  }

  /** What step `j` of the run took from whoever gained the vote. */
  lemma JoinedFor(
    H: Hasher, m: Accounts, rent: nat -> u64, exact: bool, actions: seq<Action>, j: nat, voter: Key, id: Digest)
    requires Genesis(m) && FixedRent(m, rent, exact, actions)
    requires j < |actions| && Joins(actions[j].instruction)
    requires At(Run(H, m, actions[..j]), VotePda(voter, id)).owner != Program
    requires At(Run(H, m, actions[..j + 1]), VotePda(voter, id)).owner == Program
    ensures Charged(Run(H, m, actions[..j]), Run(H, m, actions[..j + 1]), rent, exact, voter, id)
  {
    GenesisConsistent(H, m);
    RunsStayConsistent(H, m, actions[..j]);
    ReachablePriced(H, m, rent, exact, actions[..j]);
    RunsOnce(H, m, actions, j);
    JoiningCharges(H, Run(H, m, actions[..j]), actions[j].env, exact, actions[j].instruction, voter, id);
  }

  /** A record of which a vote is held to the end keeps its size. */
  lemma HeldSpaceStays(H: Hasher, m: Accounts, actions: seq<Action>, from: nat, voter: Key, id: Digest)
    requires Consistent(H, m) && VoteHeld(H, m, actions, from, voter, id) && from <= |actions|
    ensures At(Run(H, m, actions[..from]), HashPda(id)).data.HashData?
    ensures At(Run(H, m, actions), HashPda(id)).data.HashData?
    ensures At(Run(H, m, actions), HashPda(id)).data.hash.space
         == At(Run(H, m, actions[..from]), HashPda(id)).data.hash.space
  {
    assert actions[..|actions|] == actions;
    HeldRecordStays(H, m, actions, from, |actions|, voter, id);
    HeldIsLive(H, m, actions, from, from, voter, id);
    HeldIsLive(H, m, actions, from, |actions|, voter, id);
  }

  /** Under a fixed rent schedule, whoever joins a record in step `j` of a run and holds the vote
      to its end can leave, and gets back at least what step `j` took from their wallet; exactly
      that when nobody ever sent stray lamports to a derived address. */
  lemma LeavingReturnsWhatJoiningCost(
    H: Hasher, m: Accounts, rent: nat -> u64, exact: bool, actions: seq<Action>, j: nat, env: Env, voter: Key,
    id: Digest)
    requires Genesis(m) && FixedRent(m, rent, exact, actions) && env.rent == rent
    requires j < |actions| && Joins(actions[j].instruction)
    requires At(Run(H, m, actions[..j]), VotePda(voter, id)).owner != Program
    requires VoteHeld(H, m, actions, j + 1, voter, id)
    ensures var last := Run(H, m, actions);
            && Apply(H, last, env, Leave(voter, id)).Success?
            && var left := Apply(H, last, env, Leave(voter, id)).value;
               var before, after := Run(H, m, actions[..j]), Run(H, m, actions[..j + 1]);
               var paid := At(left, Wallet(voter)).lamports - At(last, Wallet(voter)).lamports;
               var cost := At(before, Wallet(voter)).lamports - At(after, Wallet(voter)).lamports;
               paid >= cost && (exact ==> paid == cost)
  {
    assert actions[..|actions|] == actions;
    GenesisConsistent(H, m);
    JoinedFor(H, m, rent, exact, actions, j, voter, id);
    HeldSpaceStays(H, m, actions, j + 1, voter, id);
    EveryReachableVoterCanLeave(H, m, rent, exact, actions, env, voter, id);
  }
}
