/** The program as it runs: one account store that every operation updates in place.  Each
    method is proved to do exactly what the ledger function of the same operation says. */
module Chain {
  import opened Outcomes
  import opened Encoding
  import opened Records
  import opened Errors
  import opened Ledger
  import opened Totals
  import opened LedgerEffects
  import opened LedgerInvariant
  import opened ProofGraph
  import opened Commitments
  import opened Restoring
  import opened Instructions
  import opened Runs
  import opened CreationOutcomes
  import opened VoteOutcomes
  import opened Preflight

  /** The operation ended in `after` as specified, or reported the specified error. */
  ghost predicate Did(specified: Result<Accounts, Error>, after: Accounts, r: Check<Error>) {
    match r
    case Pass => specified == Success(after)
    case Fail(e) => specified == Failure(e)
  }

  /** The decoded record and vote are what the two accounts at their own addresses hold. */
  ghost predicate Holds(
    H: Hasher, m: Accounts, hashAddress: Address, state: HashState, voteAddress: Address, vote: VoteState, voter: Key)
  {
    && hashAddress == HashPda(state.record.Id(H)) && voteAddress == VotePda(voter, state.record.Id(H))
    && At(m, hashAddress).owner == Program && At(m, hashAddress).data == HashData(state)
    && At(m, voteAddress).data == VoteData(vote)
  }

  /** A live record's own state, and the caller's vacant vote account for it. */
  ghost predicate OwnVote(
    H: Hasher, m: Accounts, voter: Key, hashAddress: Address, voteAddress: Address, state: HashState)
  {
    && Consistent(H, m) && LiveMember(m, hashAddress) && At(m, hashAddress).data.hash == state
    && voteAddress == VotePda(voter, hashAddress.id) && At(m, voteAddress).owner != Program
  }

  lemma ExecutesNext(
    H: Hasher, m: Accounts, env: Env, payer: Key, proof: seq<Link>, bound: Pairs, creations: seq<nat>, n: nat,
    now: Accounts)
    requires n < |creations| && Executable(proof, bound, creations)
    requires Execute(H, m, env, payer, proof, bound, creations[..n]) == Success(now)
    ensures var index := creations[n];
            Execute(H, m, env, payer, proof, bound, creations[..n + 1]) ==
            CreateWithInitialVote(H, now, env, payer, bound[index].hash.address, bound[index].vote.address,
                                  proof[index].record)
  {
    assert creations[..n + 1][..n] == creations[..n];
  }

  lemma {:induction false} ExecutionFails(
    H: Hasher, m: Accounts, env: Env, payer: Key, proof: seq<Link>, bound: Pairs, creations: seq<nat>, n: nat)
    requires n <= |creations| && Executable(proof, bound, creations)
    requires Execute(H, m, env, payer, proof, bound, creations[..n]).Failure?
    ensures Execute(H, m, env, payer, proof, bound, creations)
         == Execute(H, m, env, payer, proof, bound, creations[..n])
    decreases |creations|
  {
    if n == |creations| {
      assert creations[..n] == creations;
    } else {
      var init := creations[..|creations| - 1];
      assert init[..n] == creations[..n];
      ExecutionFails(H, m, env, payer, proof, bound, init, n);
    }
  }

  class Bank {
    var accounts: Accounts

    constructor (initial: Accounts)
      ensures accounts == initial
    {
      accounts := initial;
    }

    // ----- Balances

    method TransferSystem(from: Address, to: Address, amount: nat) returns (r: Check<Error>)
      modifies this
      ensures Did(SystemTransfer(old(accounts), from, to, amount), accounts, r)
      ensures At(accounts, to).executable == At(old(accounts), to).executable
    {
      var source := At(accounts, from);
      if source.data != Empty {
        return Fail(InvalidArgument);
      }
      if source.owner != System {
        return Fail(IllegalOwner);
      }
      if source.lamports < amount {
        return Fail(InsufficientFunds);
      }
      accounts := accounts[from := source.(lamports := source.lamports - amount)];
      var destination := At(accounts, to);
      if destination.lamports + amount >= U64_LIMIT {
        return Fail(ArithmeticOverflow);
      }
      accounts := accounts[to := destination.(lamports := destination.lamports + amount)];
      r := Pass;
    }

    /** Both balances are resolved before either changes. */
    method TransferFromProgram(source: Address, destination: Address, amount: nat) returns (r: Check<Error>)
      modifies this
      ensures Did(TransferFromProgramAccount(old(accounts), source, destination, amount), accounts, r)
    {
      if At(accounts, source).owner != Program {
        return Fail(IllegalOwner);
      }
      if source == destination {
        return Fail(InvalidArgument);
      }
      if amount == 0 {
        return Pass;
      }
      if At(accounts, source).lamports < amount {
        return Fail(InsufficientFunds);
      }
      var sourceAfter := At(accounts, source).lamports - amount;
      var destinationAfter := At(accounts, destination).lamports + amount;
      if destinationAfter >= U64_LIMIT {
        return Fail(ArithmeticOverflow);
      }
      accounts := accounts[source := At(accounts, source).(lamports := sourceAfter)];
      accounts := accounts[destination := At(accounts, destination).(lamports := destinationAfter)];
      r := Pass;
    }

    method CloseProgram(account: Address, recipient: Address) returns (r: Check<Error>)
      modifies this
      ensures Did(CloseProgramAccount(old(accounts), account, recipient), accounts, r)
    {
      var balance := At(accounts, account).lamports;
      r := TransferFromProgram(account, recipient, balance);
      if r.Pass? {
        accounts := accounts[account := At(accounts, account).(owner := System, data := Empty)];
      }
    }

    // ----- Allocation

    method TopUpToRent(payer: Address, destination: Address, required: nat) returns (r: Check<Error>)
      modifies this
      ensures var lamports := At(old(accounts), destination).lamports;
              Did(if lamports >= required then Success(old(accounts))
                  else SystemTransfer(old(accounts), payer, destination, required - lamports), accounts, r)
      ensures At(accounts, destination).executable == At(old(accounts), destination).executable
    {
      var lamports := At(accounts, destination).lamports;
      if lamports >= required {
        return Pass;
      }
      r := TransferSystem(payer, destination, required - lamports);
    }

    method CreateOrClaimPda(
      env: Env, payer: Address, destination: Address, space: nat, data: Data) returns (r: Check<Error>)
      modifies this
      ensures Did(CreateOrClaim(old(accounts), env, payer, destination, space, data), accounts, r)
    {
      var vacant := VacantSystemAccount(At(accounts, destination));
      if vacant.Fail? {
        return vacant;
      }
      var required := env.rent(space);
      if At(accounts, destination).lamports == 0 {
        r := TransferSystem(payer, destination, required);
      } else {
        r := TopUpToRent(payer, destination, required);
      }
      if r.Pass? {
        AllocateAndAssign(destination, data);
      }
    }

    /** Gives a placeholder to the program, then writes it. */
    method AllocateAndAssign(destination: Address, data: Data)
      requires !At(accounts, destination).executable
      modifies this
      ensures accounts
           == old(accounts)[destination := AccountInfo(Program, At(old(accounts), destination).lamports, false, data)]
    {
      accounts := accounts[destination := At(accounts, destination).(owner := Program)];
      accounts := accounts[destination := At(accounts, destination).(data := data)];
    }

    // ----- Records and votes

    method CreateHashRecord(H: Hasher, env: Env, payer: Key, address: Address, record: Record) returns (r: Check<Error>)
      modifies this
      ensures Did(CreateHash(H, old(accounts), env, payer, address, record), accounts, r)
    {
      if address != HashPda(record.Id(H)) {
        return Fail(InvalidHashSeeds);
      }
      if At(accounts, address).owner == Program {
        return Fail(HashAlreadyExists);
      }
      var space := record.source.Space();
      r := CreateOrClaimPda(env, Wallet(payer), address, space, HashData(HashState(record, 1, space)));
    }

    method CreateVoteRecord(
      env: Env, payer: Key, voteAddress: Address, id: Digest, amount: u64) returns (r: Check<Error>)
      modifies this
      ensures Did(CreateVote(old(accounts), env, payer, voteAddress, id, amount), accounts, r)
    {
      if voteAddress != VotePda(payer, id) {
        return Fail(InvalidHashSeeds);
      }
      if At(accounts, voteAddress).owner == Program {
        return Fail(AlreadyVoted);
      }
      if At(accounts, HashPda(id)).owner != Program {
        return Fail(IllegalOwner);
      }
      r := CreateOrClaimPda(env, Wallet(payer), voteAddress, VOTE_INFO_SPACE, VoteData(VoteState(payer, id, amount)));
    }

    method CreateRecordWithVote(
      H: Hasher, env: Env, payer: Key, hashAddress: Address, voteAddress: Address, record: Record)
      returns (r: Check<Error>)
      modifies this
      ensures Did(CreateWithInitialVote(H, old(accounts), env, payer, hashAddress, voteAddress, record), accounts, r)
      ensures r.Pass? ==>
                var id, space := record.Id(H), record.source.Space();
                && ChangesOnly(old(accounts), accounts, {HashPda(id), VotePda(payer, id), Wallet(payer)})
                && At(accounts, HashPda(id)).data == HashData(HashState(record, 1, space))
                && At(accounts, HashPda(id)).lamports >= env.rent(space)
                && At(accounts, VotePda(payer, id)).data == VoteData(VoteState(payer, id, env.rent(space)))
                && Total(accounts, Lamports) == Total(old(accounts), Lamports)
    {
      r := CreateHashRecord(H, env, payer, hashAddress, record);
      if r.Pass? {
        r := CreateVoteRecord(env, payer, voteAddress, record.Id(H), env.rent(record.source.Space()));
      }
      if r.Pass? {
        CreateWithInitialVoteEffect(H, old(accounts), env, payer, hashAddress, voteAddress, record, Lamports);
      }
    }

    method AddVoteRecord(H: Hasher, env: Env, payer: Key, hashAddress: Address, voteAddress: Address, state: HashState)
      returns (r: Check<Error>)
      modifies this
      ensures Did(AddVote(H, old(accounts), env, payer, hashAddress, voteAddress, state), accounts, r)
      ensures r.Pass? && hashAddress == HashPda(state.record.Id(H)) ==>
                var id, deposit := state.record.Id(H), env.rent(state.space);
                && ChangesOnly(old(accounts), accounts, {HashPda(id), VotePda(payer, id), Wallet(payer)})
                && At(accounts, HashPda(id)).data == HashData(state.(voters := state.voters + 1))
                && At(accounts, HashPda(id)).lamports == At(old(accounts), HashPda(id)).lamports + deposit
                && At(accounts, VotePda(payer, id)).data == VoteData(VoteState(payer, id, deposit))
                && Total(accounts, Lamports) == Total(old(accounts), Lamports)
      ensures OwnVote(H, old(accounts), payer, hashAddress, voteAddress, state) ==>
                (r.Pass? <==> CanVote(old(accounts), env, payer, hashAddress.id, state.space)
                              && state.voters + 1 < U64_LIMIT)
    {
      if OwnVote(H, accounts, payer, hashAddress, voteAddress, state) {
        assert Placed(H, accounts, hashAddress);
        DepositOutcome(H, accounts, env, payer, hashAddress.id);
      }
      var deposit := env.rent(state.space);
      r := CreateVoteRecord(env, payer, voteAddress, state.record.Id(H), deposit);
      if r.Pass? && deposit > 0 {
        r := TransferSystem(Wallet(payer), hashAddress, deposit);
      }
      if r.Fail? {
        return;
      }
      if state.voters + 1 >= U64_LIMIT {
        return Fail(InvalidInstructionData);
      }
      var counted := HashData(state.(voters := state.voters + 1));
      accounts := accounts[hashAddress := At(accounts, hashAddress).(data := counted)];
      if hashAddress == HashPda(state.record.Id(H)) {
        AddVoteEffect(H, old(accounts), env, payer, voteAddress, state, Lamports);
      }
    }

    method ReleaseVote(
      H: Hasher, env: Env, hashAddress: Address, state: HashState, voteAddress: Address, vote: VoteState,
      recipient: Key)
      returns (r: Check<Error>)
      modifies this
      ensures Did(Release(H, old(accounts), env, hashAddress, state, voteAddress, vote, recipient), accounts, r)
      ensures r.Pass? && Holds(H, old(accounts), hashAddress, state, voteAddress, vote, recipient) ==>
                && ChangesOnly(old(accounts), accounts, {hashAddress, voteAddress, Wallet(recipient)})
                && At(accounts, Wallet(recipient)).lamports
                   == At(old(accounts), Wallet(recipient)).lamports + At(old(accounts), voteAddress).lamports
                      + Refund(old(accounts), hashAddress, state, vote)
                && At(accounts, voteAddress).owner == System && At(accounts, voteAddress).lamports == 0
                && (At(accounts, hashAddress).owner == Program <==> state.voters > 1)
                && Total(accounts, Lamports) == Total(old(accounts), Lamports)
    {
      if recipient != vote.voter {
        return Fail(NotVoter);
      }
      if state.record.Id(H) != vote.hashId {
        return Fail(InvalidHashSeeds);
      }
      if state.voters > 1 && vote.amount > 0 {
        var reserve := RefundReserve(At(accounts, hashAddress).lamports, vote.amount, env.rent(state.space));
        if reserve.Fail? {
          return reserve;
        }
      }
      if state.voters == 0 {
        return Fail(InvalidInstructionData);
      }
      r := CloseProgram(voteAddress, Wallet(recipient));
      if r.Fail? {
        return;
      }
      if state.voters == 1 {
        r := CloseProgram(hashAddress, Wallet(recipient));
      } else {
        var counted := HashData(state.(voters := state.voters - 1));
        accounts := accounts[hashAddress := At(accounts, hashAddress).(data := counted)];
        r := TransferFromProgram(hashAddress, Wallet(recipient), vote.amount);
      }
      if r.Pass? && Holds(H, old(accounts), hashAddress, state, voteAddress, vote, recipient) {
        ReleaseEffect(H, old(accounts), env, state, vote, recipient, Lamports);
      }
    }

    // ----- Aggregates

    method LoadVerifiedMembers(
      H: Hasher, kind: AggregateKind, addresses: seq<Address>) returns (r: Result<seq<HashState>, Error>)
      ensures r == LoadMembers(H, accounts, kind, addresses)
      ensures Consistent(H, accounts) ==>
                && (r.Success? <==> LiveMembers(accounts, addresses))
                && (r.Success? ==> forall k | 0 <= k < |addresses| ::
                      r.value[k] == At(accounts, addresses[k]).data.hash)
    {
      r := LoadEach(H, kind, addresses);
      if Consistent(H, accounts) {
        MembersOutcome(H, accounts, kind, addresses);
      }
    }

    method LoadEach(
      H: Hasher, kind: AggregateKind, addresses: seq<Address>) returns (r: Result<seq<HashState>, Error>)
      ensures r == LoadMembers(H, accounts, kind, addresses)
    {
      var members: seq<HashState>, uniqueIds: set<Digest> := [], {};
      for i := 0 to |addresses|
        invariant LoadMembers(H, accounts, kind, addresses[..i]) == Success(members)
        invariant uniqueIds == Elements(IdsOf(H, MemberRecords(members)))
      {
        assert addresses[..i + 1][..i] == addresses[..i];
        if At(accounts, addresses[i]).owner != Program {
          LoadingFails(H, accounts, kind, addresses, i + 1);
          return Failure(if kind.BatchKind? then BatchMemberWrongProgram else PackMemberWrongProgram);
        }
        var state := LoadFromInfo(H, accounts, addresses[i]);
        if state.Failure? {
          LoadingFails(H, accounts, kind, addresses, i + 1);
          return Failure(state.error);
        }
        var id := state.value.record.Id(H);
        if id in uniqueIds {
          LoadingFails(H, accounts, kind, addresses, i + 1);
          return Failure(if kind.BatchKind? then BatchMemberDuplicate else PackMemberDuplicate);
        }
        MoreIds(H, members, state.value);
        members, uniqueIds := members + [state.value], uniqueIds + {id};
      }
      assert addresses[..|addresses|] == addresses;
      r := Success(members);
    }

    lemma MoreIds(H: Hasher, members: seq<HashState>, state: HashState)
      ensures Elements(IdsOf(H, MemberRecords(members + [state])))
           == Elements(IdsOf(H, MemberRecords(members))) + {state.record.Id(H)}
    {
      assert IdsOf(H, MemberRecords(members + [state])) == IdsOf(H, MemberRecords(members)) + [state.record.Id(H)];
    }

    method ComposeAggregate(H: Hasher, kind: AggregateKind, addresses: seq<Address>) returns (r: Result<Derived, Error>)
      ensures r == ComposeMembers(H, accounts, kind, addresses)
    {
      if addresses == [] {
        return Failure(if kind.BatchKind? then BatchMembersEmpty else PackMembersEmpty);
      }
      var states :- LoadVerifiedMembers(H, kind, addresses);
      var stamps := StampsOf(MemberRecords(states));
      var digest := FingerprintDigest(H, stamps, if kind.BatchKind? then BatchMembersEmpty else PackMembersEmpty);
      r := Success(Derived(digest.value, if kind.BatchKind? then Batch(IdsOf(H, MemberRecords(states))) else Pack));
    }

    // ----- Restore

    method ExecuteCreations(H: Hasher, env: Env, payer: Key, proof: seq<Link>, bound: Pairs, creations: seq<nat>)
      returns (r: Check<Error>)
      requires Executable(proof, bound, creations)
      modifies this
      ensures Did(Execute(H, old(accounts), env, payer, proof, bound, creations), accounts, r)
    {
      for i := 0 to |creations|
        invariant Execute(H, old(accounts), env, payer, proof, bound, creations[..i]) == Success(accounts)
      {
        ExecutesNext(H, old(accounts), env, payer, proof, bound, creations, i, accounts);
        var index := creations[i];
        r := CreateRecordWithVote(H, env, payer, bound[index].hash.address, bound[index].vote.address,
                                  proof[index].record);
        if r.Fail? {
          ExecutionFails(H, old(accounts), env, payer, proof, bound, creations, i + 1);
          return;
        }
      }
      assert creations[..|creations|] == creations;
      r := Pass;
    }

    /** The whole history is checked before anything is written. */
    method RestoreRecords(H: Hasher, env: Env, payer: Key, anchor: Address, proof: seq<Link>, remaining: seq<Meta>)
      returns (r: Check<Error>)
      modifies this
      ensures Did(Restore(H, old(accounts), env, payer, anchor, proof, remaining), accounts, r)
    {
      var bound := BindPairs(H, payer, proof, remaining);
      if bound.Failure? {
        return Fail(bound.error);
      }
      var order := BuildProofGraph(H, proof);
      if order.Failure? {
        return Fail(order.error);
      }
      ParsedIndices(H, proof);
      r := ValidateAnchor(H, accounts, anchor, proof[0]);
      if r.Fail? {
        return;
      }
      var existing := ValidatePairs(H, accounts, payer, proof, bound.value);
      if existing.Failure? {
        return Fail(existing.error);
      }
      r := ValidateGraph(H, proof, order.value, existing.value);
      if r.Fail? {
        return;
      }
      ZeroExists(H, accounts, payer, proof, bound.value, |proof|);
      var creations := PlanCreations(order.value, bound.value.Keys, existing.value);
      CreationsExecutable(proof, order.value, bound.value, existing.value);
      r := ExecuteCreations(H, env, payer, proof, bound.value, creations.value);
    }

    lemma {:induction false} ZeroExists(H: Hasher, m: Accounts, payer: Key, proof: seq<Link>, bound: Pairs, n: nat)
      requires n <= |proof| && Existing(H, m, payer, proof, bound, n).Success?
      ensures 0 in Existing(H, m, payer, proof, bound, n).value
      decreases n
    {
      if n > 1 {
        ZeroExists(H, m, payer, proof, bound, n - 1);
      }
    }

    // ----- Instructions

    method CreateNow(
      H: Hasher, env: Env, user: Key, derived: Derived, hashAddress: Address, voteAddress: Address)
      returns (r: Check<Error>)
      modifies this
      ensures Did(match Now(env, derived)
                  case Failure(e) => Failure(e)
                  case Success(record) =>
                    CreateWithInitialVote(H, old(accounts), env, user, hashAddress, voteAddress, record),
                  accounts, r)
    {
      var record := Now(env, derived);
      if record.Failure? {
        return Fail(record.error);
      }
      r := CreateRecordWithVote(H, env, user, hashAddress, voteAddress, record.value);
    }

    /** Creates the child, then releases the parent's vote if asked to. */
    method BranchRecord(H: Hasher, env: Env, i: Instruction) returns (r: Check<Error>)
      requires i.BranchFrom?
      modifies this
      ensures Did(Apply(H, old(accounts), env, i), accounts, r)
    {
      var parent := LiveTypedHash(H, accounts, i.hashAddress);
      if parent.Failure? {
        return Fail(parent.error);
      }
      var child := BranchChild(H, parent.value.record, i.payload);
      if child.Failure? {
        return Fail(child.error);
      }
      var migration := VoteMigration(accounts, parent.value.record.Id(H), i.voteAddress, i.user, i.takeVote);
      if migration.Failure? {
        return Fail(migration.error);
      }
      r := CreateNow(H, env, i.user, child.value, i.newHashAddress, i.newVoteAddress);
      if r.Pass? && migration.value.Some? {
        r := ReleaseVote(H, env, i.hashAddress, parent.value, i.voteAddress, migration.value.value, i.user);
      }
    }

    method UnvoteRecord(H: Hasher, env: Env, i: Instruction) returns (r: Check<Error>)
      requires i.Unvote?
      modifies this
      ensures Did(Apply(H, old(accounts), env, i), accounts, r)
    {
      var state := LoadTypedHash(accounts, i.hashAddress);
      if state.Failure? {
        return Fail(state.error);
      }
      var vote := LoadTypedVote(accounts, i.voteAddress);
      if vote.Failure? {
        return Fail(vote.error);
      }
      r := ValidateLive(H, i.hashAddress, state.value);
      if r.Fail? {
        return;
      }
      r := ValidateIdentity(i.voteAddress, vote.value, i.user, state.value.record.Id(H));
      if r.Fail? {
        return;
      }
      r := ReleaseVote(H, env, i.hashAddress, state.value, i.voteAddress, vote.value, i.user);
    }

    method ComposeRecord(H: Hasher, env: Env, i: Instruction) returns (r: Check<Error>)
      requires i.Compose?
      modifies this
      ensures Did(Apply(H, old(accounts), env, i), accounts, r)
    {
      var derived := ComposeAggregate(H, i.kind, i.members);
      if derived.Failure? {
        return Fail(derived.error);
      }
      r := CreateNow(H, env, i.user, derived.value, i.hashAddress, i.voteAddress);
    }

    method Dispatch(H: Hasher, env: Env, i: Instruction) returns (r: Check<Error>)
      modifies this
      ensures Did(Apply(H, old(accounts), env, i), accounts, r)
    {
      match i {
        case Register(user, hash, hashAddress, voteAddress) =>
          r := CreateNow(H, env, user, Derived(hash, Raw), hashAddress, voteAddress);
        case HashAccount(user, target, snapshot, hashAddress, voteAddress) =>
          r := CreateNow(H, env, user, Derived(H(MetadataPreimage(target, snapshot)), Account(target)), hashAddress,
                         voteAddress);
        case Compose(_, _, _, _, _) => r := ComposeRecord(H, env, i);
        case BranchFrom(_, _, _, _, _, _, _) => r := BranchRecord(H, env, i);
        case Vote(user, hashAddress, voteAddress) =>
          var state := LiveTypedHash(H, accounts, hashAddress);
          if state.Failure? {
            return Fail(state.error);
          }
          r := AddVoteRecord(H, env, user, hashAddress, voteAddress, state.value);
        case Unvote(_, _, _) => r := UnvoteRecord(H, env, i);
        case RestoreProof(user, anchor, proof, remaining) =>
          r := RestoreRecords(H, env, user, anchor, proof, remaining);
        case Donate(user, to, amount) => r := TransferSystem(Wallet(user), to, amount);
      }
    }

    /** One transaction: all of the instruction's effects, or none.  The ledger stays consistent
        and no lamport appears or disappears. */
    method Process(H: Hasher, env: Env, i: Instruction) returns (r: Check<Error>)
      requires Consistent(H, accounts)
      modifies this
      ensures accounts == Step(H, old(accounts), env, i)
      ensures r == match Apply(H, old(accounts), env, i) case Success(_) => Pass case Failure(e) => Fail(e)
      ensures Consistent(H, accounts) && Total(accounts, Lamports) == Total(old(accounts), Lamports)
    {
      var before := accounts;
      r := Dispatch(H, env, i);
      if r.Fail? {
        accounts := before;
      } else {
        ApplyKeeps(H, before, env, i);
      }
    }
  }
}
