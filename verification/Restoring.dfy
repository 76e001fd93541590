/** The restore instruction on account values: bind pairs, parse, authenticate the anchor,
    preflight every pair, check the proof, then create only the missing records. */
module Restoring {
  import opened Outcomes
  import opened Encoding
  import opened Records
  import opened Errors
  import opened Ledger
  import opened ProofGraph
  import opened Commitments

  /** An account handed to the instruction. */
  datatype Meta = Meta(address: Address, writable: bool)
  datatype Pair = Pair(hash: Meta, vote: Meta)
  /** Account pairs by proof index. */
  type Pairs = map<nat, Pair>

  // ----- Binding accounts to proof entries

  /** Entries that must each receive a pair once any pair is supplied. */
  function Eligible(proof: seq<Link>): set<nat> {
    set i: nat | 1 <= i < |proof| && proof[i].params.Some?
  }

  function BindOne(H: Hasher, payer: Key, proof: seq<Link>, bound: Pairs, pair: Pair): Result<Pairs, Error> {
    var ids, key := ProofIds(H, proof), pair.hash.address;
    if !(key.HashPda? && key.id in ids) then Failure(RestoreProofMismatch)
    else
      var index := IndexOf(ids, key.id);
      if index == 0 || proof[index].params.None? then Failure(RestoreAccountsMisaligned)
      else if pair.vote.address != VotePda(payer, key.id) then Failure(InvalidHashSeeds)
      else if index in bound then Failure(RestoreProofMismatch)
      else Success(bound[index := pair])
  }

  function BindAll(H: Hasher, payer: Key, proof: seq<Link>, remaining: seq<Meta>): Result<Pairs, Error> {
    if |remaining| < 2 then Success(map[])
    else
      var n := |remaining| - 2;
      var bound :- BindAll(H, payer, proof, remaining[..n]);
      BindOne(H, payer, proof, bound, Pair(remaining[n], remaining[n + 1]))
  }

  function Bind(H: Hasher, payer: Key, proof: seq<Link>, remaining: seq<Meta>): Result<Pairs, Error> {
    if proof == [] then Failure(RestoreChainTooShort)
    else if |remaining| % 2 != 0 then Failure(RestoreAccountsMisaligned)
    else if !Distinct(ProofIds(H, proof)) then Failure(RestoreProofDuplicate)
    else
      var bound :- BindAll(H, payer, proof, remaining);
      if remaining != [] && |bound| != |Eligible(proof)| then Failure(RestoreAccountsMisaligned)
      else Success(bound)
  }

  // ----- Preflight

  function ExistingState(state: HashState, link: Link, isTip: bool): Check<Error> {
    if state.record.hash != link.record.hash || state.record.source != link.record.source then
      Fail(if isTip then RestoreTipMismatch else RestoreProofMismatch)
    else if state.record.createdAt != link.record.createdAt then
      Fail(if isTip then RestoreTipMismatch else RestoreTimestampMismatch)
    else Pass
  }

  function ValidateAnchor(H: Hasher, m: Accounts, anchor: Address, tip: Link): Check<Error> {
    if anchor != HashPda(tip.record.Id(H)) then Fail(InvalidHashSeeds)
    else if At(m, anchor).owner != Program then Fail(RestoreTipMismatch)
    else
      match LoadFromInfo(H, m, anchor)
      case Failure(e) => Fail(e)
      case Success(state) => ExistingState(state, tip, true)
  }

  /** Whether the pair's record already exists; otherwise both destinations must be vacant
      and writable. */
  function ValidatePair(H: Hasher, m: Accounts, payer: Key, link: Link, pair: Pair): Result<bool, Error> {
    var id, hash, vote := link.record.Id(H), pair.hash.address, pair.vote.address;
    if At(m, hash).owner == Program then
      var state :- LoadFromInfo(H, m, hash);
      :- ExistingState(state, link, false);
      if At(m, vote).owner == Program then
        var _ :- LoadAndValidateVote(m, vote, payer, id);
        Success(true)
      else
        :- VacantVote(m, vote, payer, id);
        Success(true)
    else
      :- VacantSystemAccount(At(m, hash));
      :- Require(At(m, vote).owner != Program, AlreadyVoted);
      :- VacantVote(m, vote, payer, id);
      :- Require(pair.hash.writable && pair.vote.writable, ConstraintMut);
      Success(false)
  }

  /** Entries below `n` that already exist, entry 0 among them. */
  function Existing(H: Hasher, m: Accounts, payer: Key, proof: seq<Link>, bound: Pairs, n: nat): Result<set<nat>, Error>
    requires n <= |proof|
  {
    if n <= 1 then Success({0})
    else
      var before :- Existing(H, m, payer, proof, bound, n - 1);
      if n - 1 !in bound then Success(before)
      else
        var exists_ :- ValidatePair(H, m, payer, proof[n - 1], bound[n - 1]);
        Success(if exists_ then before + {n - 1} else before)
  }

  // ----- Plan and execution

  predicate Creates(index: nat, requested: set<nat>, existing: set<nat>) {
    index != 0 && index in requested && index !in existing
  }

  function Creations(order: seq<nat>, requested: set<nat>, existing: set<nat>): seq<nat> {
    if order == [] then []
    else
      var n := |order| - 1;
      var before := Creations(order[..n], requested, existing);
      if Creates(order[n], requested, existing) then before + [order[n]] else before
  }

  predicate Executable(proof: seq<Link>, bound: Pairs, creations: seq<nat>) {
    forall k | 0 <= k < |creations| :: creations[k] < |proof| && creations[k] in bound
  }

  function Execute(H: Hasher, m: Accounts, env: Env, payer: Key, proof: seq<Link>, bound: Pairs, creations: seq<nat>)
    : Result<Accounts, Error>
    requires Executable(proof, bound, creations)
  {
    if creations == [] then Success(m)
    else
      var n := |creations| - 1;
      var before :- Execute(H, m, env, payer, proof, bound, creations[..n]);
      var index := creations[n];
      CreateWithInitialVote(H, before, env, payer, bound[index].hash.address, bound[index].vote.address,
                            proof[index].record)
  }

  lemma {:induction false} CreationsExecutable(proof: seq<Link>, order: seq<nat>, bound: Pairs, existing: set<nat>)
    requires forall k | 0 <= k < |order| :: order[k] < |proof|
    ensures Executable(proof, bound, Creations(order, bound.Keys, existing))
  {
    if order != [] {
      CreationsExecutable(proof, order[..|order| - 1], bound, existing);
    }
  }

  function Restore(
    H: Hasher, m: Accounts, env: Env, payer: Key, anchor: Address, proof: seq<Link>, remaining: seq<Meta>)
    : Result<Accounts, Error>
  {
    var bound :- Bind(H, payer, proof, remaining);
    var order :- Parse(H, proof);
    :- ValidateAnchor(H, m, anchor, proof[0]);
    var existing :- Existing(H, m, payer, proof, bound, |proof|);
    ParsedIndices(H, proof);
    :- CheckGraph(H, proof, order, existing);
    CreationsExecutable(proof, order, bound, existing);
    Execute(H, m, env, payer, proof, bound, Creations(order, bound.Keys, existing))
  }

  lemma ParsedIndices(H: Hasher, proof: seq<Link>)
    requires Parse(H, proof).Success?
    ensures |Parse(H, proof).value| == |proof|
    ensures forall k | 0 <= k < |proof| :: Parse(H, proof).value[k] < |proof|
  {
  }
}
