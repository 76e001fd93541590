/** Accounts, balances and program-derived addresses, and the effect of each account operation
    as a function of the account map.  An instruction that fails changes nothing. */
module Ledger {
  import opened Outcomes
  import opened Encoding
  import opened Records
  import opened Errors

  /** Derived addresses are distinct from each other and from every signer. */
  datatype Address =
    | Wallet(key: Key)
    | HashPda(id: Digest)
    | VotePda(voter: Key, id: Digest)

  datatype Owner = System | Program | Foreign

  datatype HashState = HashState(record: Record, voters: u64, space: nat)
  datatype VoteState = VoteState(voter: Key, hashId: Digest, amount: u64)

  datatype Data = Empty | HashData(hash: HashState) | VoteData(vote: VoteState) | Opaque

  datatype AccountInfo = AccountInfo(owner: Owner, lamports: nat, executable: bool, data: Data)

  type Accounts = map<Address, AccountInfo>

  /** What every instruction reads from its environment. */
  datatype Env = Env(clock: i64, rent: nat -> u64)

  const VOTE_INFO_SPACE := 8 + 32 + 32 + 8 + 1 + 7

  function SystemProgramId(): Address {
    Wallet(seq(32, _ => 0))
  }

  function Vacancy(lamports: nat): AccountInfo {
    AccountInfo(System, lamports, false, Empty)
  }

  function At(m: Accounts, a: Address): AccountInfo {
    if a in m then m[a] else Vacancy(0)
  }

  // ----- Balances

  function Debit(m: Accounts, a: Address, amount: nat): Accounts
    requires amount <= At(m, a).lamports
  {
    m[a := At(m, a).(lamports := At(m, a).lamports - amount)]
  }

  function Credit(m: Accounts, a: Address, amount: nat): Accounts {
    m[a := At(m, a).(lamports := At(m, a).lamports + amount)]
  }

  /** A System Program transfer out of a signing wallet. */
  function SystemTransfer(m: Accounts, from: Address, to: Address, amount: nat): Result<Accounts, Error> {
    if At(m, from).data != Empty then Failure(InvalidArgument)
    else if At(m, from).owner != System then Failure(IllegalOwner)
    else if At(m, from).lamports < amount then Failure(InsufficientFunds)
    else
      var debited := Debit(m, from, amount);
      if At(debited, to).lamports + amount >= U64_LIMIT then Failure(ArithmeticOverflow)
      else Success(Credit(debited, to, amount))
  }

  function TransferFromProgramAccount(m: Accounts, source: Address, destination: Address, amount: nat)
    : Result<Accounts, Error>
  {
    if At(m, source).owner != Program then Failure(IllegalOwner)
    else if source == destination then Failure(InvalidArgument)
    else if amount == 0 then Success(m)
    else if At(m, source).lamports < amount then Failure(InsufficientFunds)
    else if At(m, destination).lamports + amount >= U64_LIMIT then Failure(ArithmeticOverflow)
    else Success(Credit(Debit(m, source, amount), destination, amount))
  }

  function CloseProgramAccount(m: Accounts, account: Address, recipient: Address): Result<Accounts, Error> {
    var moved :- TransferFromProgramAccount(m, account, recipient, At(m, account).lamports);
    Success(moved[account := At(moved, account).(owner := System, data := Empty)])
  }

  // ----- Allocation

  function VacantSystemAccount(account: AccountInfo): Check<Error> {
    Require(account.owner == System && account.data == Empty && !account.executable, InvalidPdaPlaceholder)
  }

  /** Funds a placeholder up to the rent minimum and gives it to the program.  A prefunded
      placeholder only lowers what the payer adds. */
  function CreateOrClaim(m: Accounts, env: Env, payer: Address, destination: Address, space: nat, data: Data)
    : Result<Accounts, Error>
  {
    var required, balance := env.rent(space), At(m, destination).lamports;
    :- VacantSystemAccount(At(m, destination));
    var topUp := if balance >= required then 0 else required - balance;
    var funded :- if balance == 0 || topUp > 0 then SystemTransfer(m, payer, destination, topUp) else Success(m);
    Success(funded[destination := AccountInfo(Program, At(funded, destination).lamports, false, data)])
  }

  // ----- Live records and votes

  function ValidateLive(H: Hasher, address: Address, state: HashState): Check<Error> {
    if !(state.record.createdAt != 0 && state.voters > 0) then Fail(HashNotFound)
    else if address != HashPda(state.record.Id(H)) then Fail(InvalidHashSeeds)
    else Pass
  }

  /** A record passed as an untyped account. */
  function LoadFromInfo(H: Hasher, m: Accounts, address: Address): Result<HashState, Error> {
    if At(m, address).owner != Program then Failure(IllegalOwner)
    else if !At(m, address).data.HashData? then Failure(AccountDiscriminatorMismatch)
    else
      :- ValidateLive(H, address, At(m, address).data.hash);
      Success(At(m, address).data.hash)
  }

  function TypedOwner(account: AccountInfo): Check<Error> {
    if account.owner == System && account.lamports == 0 then Fail(AccountNotInitialized)
    else Require(account.owner == Program, AccountOwnedByWrongProgram)
  }

  /** A record passed as an account the framework decodes first. */
  function LoadTypedHash(m: Accounts, address: Address): Result<HashState, Error> {
    var account := At(m, address);
    :- TypedOwner(account);
    if account.data.HashData? then Success(account.data.hash) else Failure(AccountDiscriminatorMismatch)
  }

  function LoadTypedVote(m: Accounts, address: Address): Result<VoteState, Error> {
    var account := At(m, address);
    :- TypedOwner(account);
    if account.data.VoteData? then Success(account.data.vote) else Failure(AccountDiscriminatorMismatch)
  }

  function ValidateIdentity(address: Address, vote: VoteState, voter: Key, id: Digest): Check<Error> {
    if vote.hashId != id then Fail(InvalidHashSeeds)
    else if vote.voter != voter then Fail(NotVoter)
    else if address != VotePda(voter, id) then Fail(InvalidHashSeeds)
    else Pass
  }

  function LoadAndValidateVote(m: Accounts, address: Address, voter: Key, id: Digest): Result<VoteState, Error> {
    if At(m, address).owner != Program then Failure(NotVoter)
    else if !At(m, address).data.VoteData? then Failure(AccountDiscriminatorMismatch)
    else
      :- ValidateIdentity(address, At(m, address).data.vote, voter, id);
      Success(At(m, address).data.vote)
  }

  function VacantVote(m: Accounts, address: Address, voter: Key, id: Digest): Check<Error> {
    if address != VotePda(voter, id) then Fail(VoteAccountMissing) else VacantSystemAccount(At(m, address))
  }

  // ----- Joint record and vote operations

  function CreateVote(m: Accounts, env: Env, payer: Key, voteAddress: Address, id: Digest, amount: u64)
    : Result<Accounts, Error>
  {
    if voteAddress != VotePda(payer, id) then Failure(InvalidHashSeeds)
    else if At(m, voteAddress).owner == Program then Failure(AlreadyVoted)
    else if At(m, HashPda(id)).owner != Program then Failure(IllegalOwner)
    else CreateOrClaim(m, env, Wallet(payer), voteAddress, VOTE_INFO_SPACE, VoteData(VoteState(payer, id, amount)))
  }

  function CreateHash(H: Hasher, m: Accounts, env: Env, payer: Key, address: Address, record: Record)
    : Result<Accounts, Error>
  {
    var space := record.source.Space();
    if address != HashPda(record.Id(H)) then Failure(InvalidHashSeeds)
    else if At(m, address).owner == Program then Failure(HashAlreadyExists)
    else CreateOrClaim(m, env, Wallet(payer), address, space, HashData(HashState(record, 1, space)))
  }

  /** The new record and its first vote, whose claim is the record's rent reserve. */
  function CreateWithInitialVote(
    H: Hasher, m: Accounts, env: Env, payer: Key, hashAddress: Address, voteAddress: Address, record: Record)
    : Result<Accounts, Error>
  {
    var created :- CreateHash(H, m, env, payer, hashAddress, record);
    CreateVote(created, env, payer, voteAddress, record.Id(H), env.rent(record.source.Space()))
  }

  /** A later vote: its own account, and a deposit of the record's current rent minimum. */
  function AddVote(
    H: Hasher, m: Accounts, env: Env, payer: Key, hashAddress: Address, voteAddress: Address, state: HashState)
    : Result<Accounts, Error>
  {
    var id, deposit := state.record.Id(H), env.rent(state.space);
    var voted :- CreateVote(m, env, payer, voteAddress, id, deposit);
    var funded :- if deposit > 0 then SystemTransfer(voted, Wallet(payer), hashAddress, deposit) else Success(voted);
    if state.voters + 1 >= U64_LIMIT then Failure(InvalidInstructionData)
    else Success(funded[hashAddress := At(funded, hashAddress).(data := HashData(state.(voters := state.voters + 1)))])
  }

  function RefundReserve(balance: nat, refund: nat, reserve: nat): Check<Error> {
    if balance < refund then Fail(InsufficientFunds)
    else if balance - refund < reserve then Fail(AccountNotRentExempt)
    else Pass
  }

  /** Pays a validated vote back.  The last vote also closes the record. */
  function Release(
    H: Hasher, m: Accounts, env: Env, hashAddress: Address, state: HashState,
    voteAddress: Address, vote: VoteState, recipient: Key): Result<Accounts, Error>
  {
    if recipient != vote.voter then Failure(NotVoter)
    else if state.record.Id(H) != vote.hashId then Failure(InvalidHashSeeds)
    else
      :- if state.voters > 1 && vote.amount > 0
         then RefundReserve(At(m, hashAddress).lamports, vote.amount, env.rent(state.space)) else Pass;
      if state.voters == 0 then Failure(InvalidInstructionData)
      else
        var closed :- CloseProgramAccount(m, voteAddress, Wallet(recipient));
        if state.voters == 1 then CloseProgramAccount(closed, hashAddress, Wallet(recipient))
        else
          var counted := HashData(state.(voters := state.voters - 1));
          var left := closed[hashAddress := At(closed, hashAddress).(data := counted)];
          TransferFromProgramAccount(left, hashAddress, Wallet(recipient), vote.amount)
  }
}
