/** When a branch succeeds, the child it leaves, and what becomes of the parent's vote. */
module BranchOutcomes {
  import opened Outcomes
  import opened Encoding
  import opened Records
  import opened Errors
  import opened Ledger
  import opened LedgerEffects
  import opened LedgerInvariant
  import opened Instructions
  import opened Runs
  import opened CreationOutcomes
  import opened VoteOutcomes

  /** The child of this parent now. */
  ghost function ChildNow(H: Hasher, parent: Record, env: Env, payload: Digest): Record
    requires parent.source.Generation() + 1 < U64_LIMIT
  {
    var id, generation := parent.Id(H), parent.source.Generation();
    Record(H(BranchPreimage(id, parent.source.Kind(), parent.createdAt, generation, payload)),
           Branch(id, payload, generation + 1), env.clock)
  }

  /** The vote account handed in with the parent: the one to take along, which must exist; or the
      caller's own, existing or not; or none, named by the System Program. */
  ghost predicate VoteNamed(m: Accounts, user: Key, parent: Digest, voteAddress: Address, takeVote: bool) {
    || (voteAddress == VotePda(user, parent) && (takeVote ==> At(m, voteAddress).owner == Program))
    || (!takeVote && voteAddress == SystemProgramId())
  }

  ghost predicate ParentReady(m: Accounts, i: Instruction)
    requires i.BranchFrom?
  {
    && LiveMember(m, i.hashAddress)
    && At(m, i.hashAddress).data.hash.record.source.Generation() + 1 < U64_LIMIT
    && VoteNamed(m, i.user, i.hashAddress.id, i.voteAddress, i.takeVote)
  }

  ghost function ChildOfLive(H: Hasher, m: Accounts, env: Env, i: Instruction): Record
    requires i.BranchFrom? && ParentReady(m, i)
  {
    ChildNow(H, At(m, i.hashAddress).data.hash.record, env, i.payload)
  }

  lemma MigrationOutcome(H: Hasher, m: Accounts, user: Key, id: Digest, voteAddress: Address, takeVote: bool)
    requires Consistent(H, m)
    ensures VoteMigration(m, id, voteAddress, user, takeVote).Success? <==>
            VoteNamed(m, user, id, voteAddress, takeVote)
    ensures takeVote && voteAddress != VotePda(user, id) ==>
              VoteMigration(m, id, voteAddress, user, takeVote) == Failure(VoteAccountMissing)
    ensures takeVote && voteAddress == VotePda(user, id) && At(m, voteAddress).owner != Program ==>
              VoteMigration(m, id, voteAddress, user, takeVote) == Failure(NoVoteToMigrate)
    ensures !takeVote && !VoteNamed(m, user, id, voteAddress, takeVote) ==>
              VoteMigration(m, id, voteAddress, user, takeVote) == Failure(VoteAccountMissing)
  {
    assert Placed(H, m, VotePda(user, id));
  }

  lemma ChildStamped(H: Hasher, m: Accounts, env: Env, i: Instruction)
    requires Consistent(H, m) && i.BranchFrom?
    ensures NewRecord(H, m, env, i).Success? <==> ParentReady(m, i) && env.clock != 0
    ensures ParentReady(m, i) ==>
              NewRecord(H, m, env, i) == if env.clock == 0 then Failure(HashNotFound)
                                         else Success(ChildOfLive(H, m, env, i))
  {
    assert Placed(H, m, i.hashAddress);
    if LiveMember(m, i.hashAddress) {
      MigrationOutcome(H, m, i.user, i.hashAddress.id, i.voteAddress, i.takeVote);
    }
  }

  /** Creating the child, before any vote is released. */
  lemma ChildCreated(H: Hasher, m: Accounts, env: Env, i: Instruction)
    requires Consistent(H, m) && i.BranchFrom?
    ensures if ParentReady(m, i)
            then CreatesExactly(H, m, env, i.user, i.newHashAddress, i.newVoteAddress, ChildOfLive(H, m, env, i),
                                Branched(H, m, env, i))
            else Branched(H, m, env, i).Failure?
    ensures Branched(H, m, env, i).Failure? ==> Apply(H, m, env, i) == Branched(H, m, env, i)
    ensures !i.takeVote ==> Apply(H, m, env, i) == Branched(H, m, env, i)
  {
    ChildStamped(H, m, env, i);
    if ParentReady(m, i) && env.clock != 0 {
      CreationOutcome(H, m, env, i.user, i.newHashAddress, i.newVoteAddress, ChildOfLive(H, m, env, i));
    }
  }

  /** Parent and old vote are untouched by the child's creation. */
  lemma ParentSpared(H: Hasher, m: Accounts, env: Env, i: Instruction)
    requires Consistent(H, m) && i.BranchFrom? && i.takeVote && Branched(H, m, env, i).Success?
    ensures ParentReady(m, i) && i.voteAddress == VotePda(i.user, i.hashAddress.id)
    ensures var created := Branched(H, m, env, i).value;
            && Consistent(H, created)
            && At(created, i.hashAddress) == At(m, i.hashAddress)
            && At(created, i.voteAddress) == At(m, i.voteAddress)
            && Apply(H, m, env, i) == Released(H, created, env, i.user, i.hashAddress.id)
  {
    ChildStamped(H, m, env, i);
    CreationKeeps(H, m, env, i.user, i.newHashAddress, i.newVoteAddress, ChildOfLive(H, m, env, i));
    BranchSparesLive(H, m, env, i, i.hashAddress);
    BranchSparesLive(H, m, env, i, i.voteAddress);
    assert Placed(H, m, i.voteAddress);
  }

  /** A branch that keeps its parent's vote creates the child whenever parent, vote account, new
      addresses and funds are in order, however deep the parent already is. */
  lemma BranchOutcome(H: Hasher, m: Accounts, env: Env, i: Instruction)
    requires Consistent(H, m) && i.BranchFrom? && !i.takeVote
    ensures if ParentReady(m, i)
            then CreatesExactly(H, m, env, i.user, i.newHashAddress, i.newVoteAddress, ChildOfLive(H, m, env, i),
                                Apply(H, m, env, i))
            else Apply(H, m, env, i).Failure?
  {
    ChildCreated(H, m, env, i);
  }

  ghost predicate CanMigrate(H: Hasher, m: Accounts, env: Env, i: Instruction)
    requires i.BranchFrom?
  {
    && ParentReady(m, i) && At(m, i.voteAddress).data.VoteData? && i.voteAddress == VotePda(i.user, i.hashAddress.id)
    && CanCreate(H, m, env, i.user, i.newHashAddress, i.newVoteAddress, ChildOfLive(H, m, env, i))
    && !HeldBack(m, env, i.user, i.hashAddress.id)
  }

  /** The child stands, the vote has left the parent, and the caller paid for the one and received
      the other. */
  ghost predicate Migrated(H: Hasher, m: Accounts, after: Accounts, env: Env, i: Instruction)
    requires i.BranchFrom? && CanMigrate(H, m, env, i)
  {
    var child, w := ChildOfLive(H, m, env, i), Wallet(i.user);
    && JustCreated(H, after, env, i.user, child)
    && Withdrawn(m, after, i.user, i.hashAddress.id)
    && ChangesOnly(m, after, {i.newHashAddress, i.newVoteAddress, i.hashAddress, i.voteAddress, w})
    && At(after, w).lamports
       == At(m, w).lamports - Price(m, env, i.user, child.Id(H), child.source.Space())
          + At(m, i.voteAddress).lamports + RefundFor(m, i.user, i.hashAddress.id)
  }

  /** The two halves of a migrating branch, put together. */
  lemma CreatedThenLeft(H: Hasher, m: Accounts, created: Accounts, after: Accounts, env: Env, i: Instruction)
    requires i.BranchFrom? && CanMigrate(H, m, env, i)
    requires CreatesExactly(H, m, env, i.user, i.newHashAddress, i.newVoteAddress, ChildOfLive(H, m, env, i),
                            Success(created))
    requires At(created, i.hashAddress) == At(m, i.hashAddress) && At(created, i.voteAddress) == At(m, i.voteAddress)
    requires At(m, i.voteAddress).owner == Program && Left(created, after, i.user, i.hashAddress.id)
    ensures Migrated(H, m, after, env, i)
  {
    var child := ChildOfLive(H, m, env, i);
    assert i.newHashAddress != i.hashAddress && i.newVoteAddress != i.voteAddress;
    assert At(after, i.newHashAddress) == At(created, i.newHashAddress);
    assert At(after, i.newVoteAddress) == At(created, i.newVoteAddress);
  }

  lemma MigrationFollows(H: Hasher, m: Accounts, env: Env, i: Instruction)
    requires Consistent(H, m) && i.BranchFrom? && i.takeVote && Branched(H, m, env, i).Success?
    ensures Apply(H, m, env, i).Success? <==> CanMigrate(H, m, env, i)
    ensures Apply(H, m, env, i).Success? ==> Migrated(H, m, Apply(H, m, env, i).value, env, i)
  {
    var created := Branched(H, m, env, i).value;
    ChildCreated(H, m, env, i);
    ParentSpared(H, m, env, i);
    ReleaseOutcome(H, created, env, i.user, i.hashAddress.id);
    if Apply(H, m, env, i).Success? {
      CreatedThenLeft(H, m, created, Apply(H, m, env, i).value, env, i);
    }
  }

  /** A branch that takes the vote along additionally needs that vote to be free to leave, judged
      on the parent as it was. */
  lemma MigratingBranchOutcome(H: Hasher, m: Accounts, env: Env, i: Instruction)
    requires Consistent(H, m) && i.BranchFrom? && i.takeVote
    ensures Apply(H, m, env, i).Success? <==> CanMigrate(H, m, env, i)
    ensures Apply(H, m, env, i).Success? ==> Migrated(H, m, Apply(H, m, env, i).value, env, i)
  {
    ChildCreated(H, m, env, i);
    if Branched(H, m, env, i).Success? {
      MigrationFollows(H, m, env, i);
    }
  }

  /** Why a branch is refused before anything is created. */
  lemma BranchRefusal(H: Hasher, m: Accounts, env: Env, i: Instruction)
    requires Consistent(H, m) && i.BranchFrom? && LiveMember(m, i.hashAddress)
    ensures var outcome := Apply(H, m, env, i);
            && (At(m, i.hashAddress).data.hash.record.source.Generation() + 1 >= U64_LIMIT ==>
                  outcome == Failure(GenerationOverflow))
            && (At(m, i.hashAddress).data.hash.record.source.Generation() + 1 < U64_LIMIT
                && !VoteNamed(m, i.user, i.hashAddress.id, i.voteAddress, i.takeVote) ==>
                  outcome == Failure(if i.takeVote && i.voteAddress == VotePda(i.user, i.hashAddress.id)
                                     then NoVoteToMigrate else VoteAccountMissing))
  {
    assert Placed(H, m, i.hashAddress);
    MigrationOutcome(H, m, i.user, i.hashAddress.id, i.voteAddress, i.takeVote);
  }
}
