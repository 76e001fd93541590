/** Every instruction of the program as a function of the account map, and whole runs. */
module Instructions {
  import opened Outcomes
  import opened Encoding
  import opened Records
  import opened Errors
  import opened Ledger
  import opened Restoring

  datatype AggregateKind = BatchKind | PackKind

  datatype Instruction =
    | Register(user: Key, hash: Digest, hashAddress: Address, voteAddress: Address)
    | HashAccount(user: Key, target: Key, snapshot: Snapshot, hashAddress: Address, voteAddress: Address)
    | Compose(user: Key, kind: AggregateKind, members: seq<Address>, hashAddress: Address, voteAddress: Address)
    | BranchFrom(user: Key, hashAddress: Address, voteAddress: Address, newHashAddress: Address,
                 newVoteAddress: Address, payload: Digest, takeVote: bool)
    | Vote(user: Key, hashAddress: Address, voteAddress: Address)
    | Unvote(user: Key, hashAddress: Address, voteAddress: Address)
    | RestoreProof(user: Key, anchor: Address, proof: seq<Link>, remaining: seq<Meta>)
    // Anyone may send lamports anywhere, derived addresses included.
    | Donate(user: Key, to: Address, amount: nat)

  /** A digest and what it was derived from. */
  datatype Derived = Derived(hash: Digest, source: Source)

  /** A record stamped with the current clock. */
  function Now(env: Env, d: Derived): Result<Record, Error> {
    if env.clock == 0 then Failure(HashNotFound) else Success(Record(d.hash, d.source, env.clock))
  }

  // ----- Aggregates

  function LoadMember(H: Hasher, m: Accounts, kind: AggregateKind, earlier: seq<HashState>, address: Address)
    : Result<HashState, Error>
  {
    if At(m, address).owner != Program then
      Failure(if kind.BatchKind? then BatchMemberWrongProgram else PackMemberWrongProgram)
    else
      var state :- LoadFromInfo(H, m, address);
      if state.record.Id(H) in IdsOf(H, MemberRecords(earlier)) then
        Failure(if kind.BatchKind? then BatchMemberDuplicate else PackMemberDuplicate)
      else Success(state)
  }

  function LoadMembers(H: Hasher, m: Accounts, kind: AggregateKind, addresses: seq<Address>)
    : (r: Result<seq<HashState>, Error>)
    ensures r.Success? ==> |r.value| == |addresses|
  {
    if addresses == [] then Success([])
    else
      var n := |addresses| - 1;
      var before :- LoadMembers(H, m, kind, addresses[..n]);
      var last :- LoadMember(H, m, kind, before, addresses[n]);
      Success(before + [last])
  }

  lemma {:induction false} LoadingFails(H: Hasher, m: Accounts, kind: AggregateKind, addresses: seq<Address>, n: nat)
    requires n <= |addresses| && LoadMembers(H, m, kind, addresses[..n]).Failure?
    ensures LoadMembers(H, m, kind, addresses) == LoadMembers(H, m, kind, addresses[..n])
    decreases |addresses|
  {
    if n == |addresses| {
      assert addresses[..n] == addresses;
    } else {
      var init := addresses[..|addresses| - 1];
      assert init[..n] == addresses[..n];
      LoadingFails(H, m, kind, init, n);
    }
  }

  function MemberRecords(states: seq<HashState>): (r: seq<Record>)
    ensures |r| == |states| && forall i | 0 <= i < |r| :: r[i] == states[i].record
  {
    seq(|states|, i requires 0 <= i < |states| => states[i].record)
  }

  function ComposeMembers(H: Hasher, m: Accounts, kind: AggregateKind, members: seq<Address>): Result<Derived, Error> {
    if members == [] then Failure(if kind.BatchKind? then BatchMembersEmpty else PackMembersEmpty)
    else
      var states :- LoadMembers(H, m, kind, members);
      var digest := H(AggregatePreimage(StampsOf(MemberRecords(states))));
      Success(Derived(digest, if kind.BatchKind? then Batch(IdsOf(H, MemberRecords(states))) else Pack))
  }

  // ----- Branching

  function LiveTypedHash(H: Hasher, m: Accounts, address: Address): Result<HashState, Error> {
    var state :- LoadTypedHash(m, address);
    :- ValidateLive(H, address, state);
    Success(state)
  }

  function BranchDigest(H: Hasher, parent: Record, payload: Digest): Digest {
    H(BranchPreimage(parent.Id(H), parent.source.Kind(), parent.createdAt, parent.source.Generation(), payload))
  }

  function BranchChild(H: Hasher, parent: Record, payload: Digest): Result<Derived, Error> {
    if parent.source.Generation() + 1 >= U64_LIMIT then Failure(GenerationOverflow)
    else
      var source := Branch(parent.Id(H), payload, parent.source.Generation() + 1);
      Success(Derived(BranchDigest(H, parent, payload), source))
  }

  /** The vote to release after branching, if the caller asked for it. */
  function VoteMigration(m: Accounts, id: Digest, voteAddress: Address, user: Key, takeVote: bool)
    : Result<Option<VoteState>, Error>
  {
    var expected := VotePda(user, id);
    if takeVote then
      if voteAddress != expected then Failure(VoteAccountMissing)
      else if At(m, voteAddress).owner != Program then Failure(NoVoteToMigrate)
      else
        var vote :- LoadAndValidateVote(m, voteAddress, user, id);
        Success(Some(vote))
    else if voteAddress == expected then
      if At(m, voteAddress).owner == Program then
        var _ :- LoadAndValidateVote(m, voteAddress, user, id);
        Success(None)
      else
        :- VacantVote(m, voteAddress, user, id);
        Success(None)
    else
      :- Require(voteAddress == SystemProgramId(), VoteAccountMissing);
      Success(None)
  }

  // ----- Instructions

  /** The record a creating instruction stamps with the current clock, before any funding. */
  function NewRecord(H: Hasher, m: Accounts, env: Env, i: Instruction): Result<Record, Error>
    requires i.Register? || i.HashAccount? || i.Compose? || i.BranchFrom?
  {
    match i
    case Register(_, hash, _, _) => Now(env, Derived(hash, Raw))
    case HashAccount(_, target, snapshot, _, _) =>
      Now(env, Derived(H(MetadataPreimage(target, snapshot)), Account(target)))
    case Compose(_, kind, members, _, _) =>
      var composed :- ComposeMembers(H, m, kind, members);
      Now(env, composed)
    case BranchFrom(user, hashAddress, voteAddress, _, _, payload, takeVote) =>
      var parent :- LiveTypedHash(H, m, hashAddress);
      var child :- BranchChild(H, parent.record, payload);
      var _ :- VoteMigration(m, parent.record.Id(H), voteAddress, user, takeVote);
      Now(env, child)
  }

  function Apply(H: Hasher, m: Accounts, env: Env, i: Instruction): Result<Accounts, Error> {
    match i
    case Register(user, _, hashAddress, voteAddress) =>
      var record :- NewRecord(H, m, env, i);
      CreateWithInitialVote(H, m, env, user, hashAddress, voteAddress, record)
    case HashAccount(user, _, _, hashAddress, voteAddress) =>
      var record :- NewRecord(H, m, env, i);
      CreateWithInitialVote(H, m, env, user, hashAddress, voteAddress, record)
    case Compose(user, _, _, hashAddress, voteAddress) =>
      var record :- NewRecord(H, m, env, i);
      CreateWithInitialVote(H, m, env, user, hashAddress, voteAddress, record)
    case BranchFrom(user, hashAddress, voteAddress, newHashAddress, newVoteAddress, _, takeVote) =>
      var record :- NewRecord(H, m, env, i);
      var created :- CreateWithInitialVote(H, m, env, user, newHashAddress, newVoteAddress, record);
      if takeVote then
        Release(H, created, env, hashAddress, At(m, hashAddress).data.hash, voteAddress, At(m, voteAddress).data.vote,
                user)
      else Success(created)
    case Vote(user, hashAddress, voteAddress) =>
      var state :- LiveTypedHash(H, m, hashAddress);
      AddVote(H, m, env, user, hashAddress, voteAddress, state)
    case Unvote(user, hashAddress, voteAddress) =>
      var state :- LoadTypedHash(m, hashAddress);
      var vote :- LoadTypedVote(m, voteAddress);
      :- ValidateLive(H, hashAddress, state);
      :- ValidateIdentity(voteAddress, vote, user, state.record.Id(H));
      Release(H, m, env, hashAddress, state, voteAddress, vote, user)
    case RestoreProof(user, anchor, proof, remaining) => Restore(H, m, env, user, anchor, proof, remaining)
    case Donate(user, to, amount) => SystemTransfer(m, Wallet(user), to, amount)
  }

  /** A failed instruction leaves every account as it was. */
  function Step(H: Hasher, m: Accounts, env: Env, i: Instruction): Accounts {
    match Apply(H, m, env, i)
    case Success(after) => after
    case Failure(_) => m
  }
}
