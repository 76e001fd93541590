/** When each creating instruction succeeds, why it fails, and the record it leaves, stated from
    the caller's inputs and the ledger alone. */
module CreationOutcomes {
  import opened Outcomes
  import opened Encoding
  import opened Records
  import opened Errors
  import opened Ledger
  import opened Totals
  import opened LedgerEffects
  import opened LedgerInvariant
  import opened Instructions

  // ----- Funding one record and its first vote

  /** A wallet the System Program moves lamports out of. */
  ghost predicate Plain(account: AccountInfo) {
    account.owner == System && account.data == Empty
  }

  /** Filling this account takes a transfer, of nothing when it needs no rent. */
  ghost predicate Charges(m: Accounts, env: Env, destination: Address, space: nat) {
    At(m, destination).lamports == 0 || At(m, destination).lamports < env.rent(space)
  }

  /** What a new record of this size and its first vote still need. */
  ghost function Price(m: Accounts, env: Env, payer: Key, id: Digest, space: nat): nat {
    TopUp(m, env, HashPda(id), space) + TopUp(m, env, VotePda(payer, id), VOTE_INFO_SPACE)
  }

  ghost predicate ChargesFor(m: Accounts, env: Env, payer: Key, id: Digest, space: nat) {
    Charges(m, env, HashPda(id), space) || Charges(m, env, VotePda(payer, id), VOTE_INFO_SPACE)
  }

  ghost predicate CanFund(m: Accounts, env: Env, payer: Key, id: Digest, space: nat) {
    && At(m, Wallet(payer)).lamports >= Price(m, env, payer, id, space)
    && (ChargesFor(m, env, payer, id, space) ==> Plain(At(m, Wallet(payer))))
  }

  /** Everything the program asks before it creates `r` and the payer's vote for it. */
  ghost predicate CanCreate(
    H: Hasher, m: Accounts, env: Env, payer: Key, hashAddress: Address, voteAddress: Address, r: Record)
  {
    && r.createdAt != 0
    && hashAddress == HashPda(r.Id(H)) && voteAddress == VotePda(payer, r.Id(H))
    && At(m, hashAddress).owner != Program
    && CanFund(m, env, payer, r.Id(H), r.source.Space())
  }

  /** What is reported to a plain wallet that cannot create `r`. */
  ghost function WhyNot(
    H: Hasher, m: Accounts, env: Env, payer: Key, hashAddress: Address, voteAddress: Address, r: Record): Error
  {
    var id := r.Id(H);
    if r.createdAt == 0 then HashNotFound
    else if hashAddress != HashPda(id) then InvalidHashSeeds
    else if At(m, hashAddress).owner == Program then HashAlreadyExists
    else if At(m, Wallet(payer)).lamports < TopUp(m, env, hashAddress, r.source.Space()) then InsufficientFunds
    else if voteAddress != VotePda(payer, id) then InvalidHashSeeds
    else InsufficientFunds
  }

  /** The outcome of creating `r` is success exactly when that is allowed; then `r` stands with one
      vote, the payer's, who paid what the two accounts still needed; nothing else changed. */
  ghost predicate CreatesExactly(
    H: Hasher, m: Accounts, env: Env, payer: Key, hashAddress: Address, voteAddress: Address, r: Record,
    outcome: Result<Accounts, Error>)
  {
    && (outcome.Success? <==> CanCreate(H, m, env, payer, hashAddress, voteAddress, r))
    && (outcome.Success? ==>
          && JustCreated(H, outcome.value, env, payer, r)
          && ChangesOnly(m, outcome.value, {HashPda(r.Id(H)), VotePda(payer, r.Id(H)), Wallet(payer)})
          && var w, price := Wallet(payer), Price(m, env, payer, r.Id(H), r.source.Space());
             price <= At(m, w).lamports
             && At(outcome.value, w) == At(m, w).(lamports := At(m, w).lamports - price))
    && (outcome.Failure? && Plain(At(m, Wallet(payer))) ==>
          outcome.error == WhyNot(H, m, env, payer, hashAddress, voteAddress, r))
  }

  lemma ClaimOutcome(m: Accounts, env: Env, payer: Key, destination: Address, space: nat, data: Data)
    requires !destination.Wallet? && Vacant(At(m, destination)) && Total(m, Lamports) < U64_LIMIT
    ensures var wallet, claimed := At(m, Wallet(payer)), CreateOrClaim(m, env, Wallet(payer), destination, space, data);
            && (claimed.Success? <==>
                  && wallet.lamports >= TopUp(m, env, destination, space)
                  && (Charges(m, env, destination, space) ==> Plain(wallet)))
            && (claimed.Failure? && Plain(wallet) ==> claimed == Failure(InsufficientFunds))
  {
    TwoSharesArePart(m, Lamports, Wallet(payer), destination);
  }

  /** Once the record is there, its vote account is as vacant as before. */
  lemma VoteAfterRecord(H: Hasher, m: Accounts, env: Env, payer: Key, voteAddress: Address, r: Record)
    requires Consistent(H, m) && At(m, HashPda(r.Id(H))).owner != Program
    requires CreateHash(H, m, env, payer, HashPda(r.Id(H)), r).Success?
    ensures var id, space := r.Id(H), r.source.Space();
            var created := CreateHash(H, m, env, payer, HashPda(id), r).value;
            var voted := CreateVote(created, env, payer, voteAddress, id, env.rent(space));
            && (voted.Success? <==> voteAddress == VotePda(payer, id) && CanFund(m, env, payer, id, space))
            && (voteAddress != VotePda(payer, id) ==> voted == Failure(InvalidHashSeeds))
            && (voteAddress == VotePda(payer, id) && voted.Failure? && Plain(At(m, Wallet(payer))) ==>
                  voted == Failure(InsufficientFunds))
  {
    var id, space := r.Id(H), r.source.Space();
    var v := VotePda(payer, id);
    assert Placed(H, m, v) && Placed(H, m, HashPda(id));
    if At(m, v).owner == Program {
      VoteImpliesRecord(H, m, payer, id);
    }
    CreateHashEffect(H, m, env, payer, HashPda(id), r, Lamports);
    var created := CreateHash(H, m, env, payer, HashPda(id), r).value;
    assert At(created, v) == At(m, v);
    ClaimOutcome(created, env, payer, v, VOTE_INFO_SPACE, VoteData(VoteState(payer, id, env.rent(space))));
    ClaimOutcome(m, env, payer, HashPda(id), space, HashData(HashState(r, 1, space)));
  }

  lemma CreationOutcome(
    H: Hasher, m: Accounts, env: Env, payer: Key, hashAddress: Address, voteAddress: Address, r: Record)
    requires Consistent(H, m) && r.createdAt != 0
    ensures CreatesExactly(H, m, env, payer, hashAddress, voteAddress, r,
                           CreateWithInitialVote(H, m, env, payer, hashAddress, voteAddress, r))
  {
    var id, space := r.Id(H), r.source.Space();
    if hashAddress == HashPda(id) && At(m, hashAddress).owner != Program {
      assert Placed(H, m, hashAddress);
      ClaimOutcome(m, env, payer, hashAddress, space, HashData(HashState(r, 1, space)));
      if CreateHash(H, m, env, payer, hashAddress, r).Success? {
        VoteAfterRecord(H, m, env, payer, voteAddress, r);
      }
    }
    if CreateWithInitialVote(H, m, env, payer, hashAddress, voteAddress, r).Success? {
      CreateWithInitialVoteEffect(H, m, env, payer, hashAddress, voteAddress, r, Lamports);
    }
  }

  // ----- Registering

  /** Registering stamps the given digest as a raw record with the current clock. */
  lemma RegisterOutcome(
    H: Hasher, m: Accounts, env: Env, user: Key, hash: Digest, hashAddress: Address, voteAddress: Address)
    requires Consistent(H, m)
    ensures CreatesExactly(H, m, env, user, hashAddress, voteAddress, Record(hash, Raw, env.clock),
                           Apply(H, m, env, Register(user, hash, hashAddress, voteAddress)))
  {
    if env.clock != 0 {
      CreationOutcome(H, m, env, user, hashAddress, voteAddress, Record(hash, Raw, env.clock));
    }
  }

  /** Hashing an account stamps the digest of its key and metadata. */
  lemma HashAccountOutcome(
    H: Hasher, m: Accounts, env: Env, user: Key, target: Key, snapshot: Snapshot, hashAddress: Address,
    voteAddress: Address)
    requires Consistent(H, m)
    ensures CreatesExactly(H, m, env, user, hashAddress, voteAddress,
                           Record(H(MetadataPreimage(target, snapshot)), Account(target), env.clock),
                           Apply(H, m, env, HashAccount(user, target, snapshot, hashAddress, voteAddress)))
  {
    if env.clock != 0 {
      CreationOutcome(H, m, env, user, hashAddress, voteAddress,
                      Record(H(MetadataPreimage(target, snapshot)), Account(target), env.clock));
    }
  }

  // ----- Aggregates

  ghost predicate LiveMember(m: Accounts, a: Address) {
    a.HashPda? && At(m, a).owner == Program && At(m, a).data.HashData?
  }

  ghost predicate LiveMembers(m: Accounts, members: seq<Address>) {
    Distinct(members) && forall k | 0 <= k < |members| :: LiveMember(m, members[k])
  }

  ghost function StampAt(m: Accounts, a: Address): Stamp
    requires LiveMember(m, a)
  {
    At(m, a).data.hash.record.AsStamp()
  }

  /** The stamps of the records live at these addresses, in the order given. */
  ghost function StampsAt(m: Accounts, members: seq<Address>): (r: seq<Stamp>)
    requires forall k | 0 <= k < |members| :: LiveMember(m, members[k])
    ensures |r| == |members|
    ensures forall k | 0 <= k < |r| :: r[k] == StampAt(m, members[k])
  {
    seq(|members|, k requires 0 <= k < |members| => StampAt(m, members[k]))
  }

  ghost function KeysAt(members: seq<Address>): (r: seq<Digest>)
    requires forall k | 0 <= k < |members| :: members[k].HashPda?
    ensures |r| == |members| && forall k | 0 <= k < |r| :: HashPda(r[k]) == members[k]
  {
    seq(|members|, k requires 0 <= k < |members| => members[k].id)
  }

  /** The aggregate of these members now: the digest of their stamps in order, and for a batch
      their identities in order. */
  ghost function AggregateNow(H: Hasher, m: Accounts, env: Env, kind: AggregateKind, members: seq<Address>): Record
    requires forall k | 0 <= k < |members| :: LiveMember(m, members[k])
  {
    Record(H(AggregatePreimage(StampsAt(m, members))), if kind.BatchKind? then Batch(KeysAt(members)) else Pack,
           env.clock)
  }

  lemma LastMemberOutcome(H: Hasher, m: Accounts, kind: AggregateKind, earlier: seq<Address>, a: Address)
    requires Consistent(H, m) && LoadMembers(H, m, kind, earlier).Success?
    requires forall k | 0 <= k < |earlier| ::
               LiveMember(m, earlier[k]) && LoadMembers(H, m, kind, earlier).value[k] == At(m, earlier[k]).data.hash
    ensures var loaded := LoadMember(H, m, kind, LoadMembers(H, m, kind, earlier).value, a);
            && (loaded.Success? <==> LiveMember(m, a) && a !in earlier)
            && (loaded.Success? ==> loaded.value == At(m, a).data.hash)
            && (At(m, a).owner != Program ==> loaded == Failure(WrongProgram(kind)))
            && (LiveMember(m, a) && a in earlier ==> loaded == Failure(DuplicateOf(kind)))
  {
    assert Placed(H, m, a);
    var states := LoadMembers(H, m, kind, earlier).value;
    var ids := IdsOf(H, MemberRecords(states));
    forall k | 0 <= k < |earlier|
      ensures HashPda(ids[k]) == earlier[k]
    {
      assert Placed(H, m, earlier[k]);
    }
    if LiveMember(m, a) && a in earlier {
      var k :| 0 <= k < |earlier| && earlier[k] == a;
      assert ids[k] == a.id;
    }
  }

  ghost function WrongProgram(kind: AggregateKind): Error {
    if kind.BatchKind? then BatchMemberWrongProgram else PackMemberWrongProgram
  }

  ghost function DuplicateOf(kind: AggregateKind): Error {
    if kind.BatchKind? then BatchMemberDuplicate else PackMemberDuplicate
  }

  lemma {:induction false} MembersOutcome(H: Hasher, m: Accounts, kind: AggregateKind, members: seq<Address>)
    requires Consistent(H, m)
    ensures LoadMembers(H, m, kind, members).Success? <==> LiveMembers(m, members)
    ensures LoadMembers(H, m, kind, members).Success? ==>
              forall k | 0 <= k < |members| :: LoadMembers(H, m, kind, members).value[k] == At(m, members[k]).data.hash
    decreases |members|
  {
    if members != [] {
      var n := |members| - 1;
      MembersOutcome(H, m, kind, members[..n]);
      LiveMembersGrow(m, members);
      if LoadMembers(H, m, kind, members[..n]).Success? {
        LastMemberOutcome(H, m, kind, members[..n], members[n]);
      }
    }
  }

  lemma LiveMembersGrow(m: Accounts, members: seq<Address>)
    requires members != []
    ensures var init, last := members[..|members| - 1], members[|members| - 1];
            LiveMembers(m, members) <==> LiveMembers(m, init) && LiveMember(m, last) && last !in init
  {
    var init, last := members[..|members| - 1], members[|members| - 1];
    assert members == init + [last];
    if last in init {
      var k :| 0 <= k < |init| && init[k] == last;
      assert members[k] == members[|init|];
    }
    if LiveMembers(m, members) {
      assert forall k | 0 <= k < |init| :: init[k] == members[k];
    }
  }

  lemma LoadedMembers(H: Hasher, m: Accounts, kind: AggregateKind, members: seq<Address>)
    requires Consistent(H, m) && LiveMembers(m, members)
    ensures LoadMembers(H, m, kind, members).Success?
    ensures var records := MemberRecords(LoadMembers(H, m, kind, members).value);
            StampsOf(records) == StampsAt(m, members) && IdsOf(H, records) == KeysAt(members)
  {
    MembersOutcome(H, m, kind, members);
    var records := MemberRecords(LoadMembers(H, m, kind, members).value);
    assert StampsOf(records) == StampsAt(m, members);
    forall k | 0 <= k < |members|
      ensures IdsOf(H, records)[k] == members[k].id
    {
      assert Placed(H, m, members[k]);
    }
    assert IdsOf(H, records) == KeysAt(members);
  }

  lemma ComposedNow(H: Hasher, m: Accounts, env: Env, kind: AggregateKind, members: seq<Address>)
    requires Consistent(H, m) && LiveMembers(m, members) && members != []
    ensures var r := AggregateNow(H, m, env, kind, members);
            ComposeMembers(H, m, kind, members) == Success(Derived(r.hash, r.source))
  {
    LoadedMembers(H, m, kind, members);
  }

  /** A batch or pack of live, distinct members commits to exactly their stamps in the order
      given; any other list is refused. */
  lemma ComposeOutcome(
    H: Hasher, m: Accounts, env: Env, user: Key, kind: AggregateKind, members: seq<Address>, hashAddress: Address,
    voteAddress: Address)
    requires Consistent(H, m)
    ensures var outcome := Apply(H, m, env, Compose(user, kind, members, hashAddress, voteAddress));
            if members != [] && LiveMembers(m, members)
            then CreatesExactly(H, m, env, user, hashAddress, voteAddress, AggregateNow(H, m, env, kind, members),
                                outcome)
            else outcome.Failure?
  {
    MembersOutcome(H, m, kind, members);
    if members != [] && LiveMembers(m, members) {
      ComposedNow(H, m, env, kind, members);
      if env.clock != 0 {
        CreationOutcome(H, m, env, user, hashAddress, voteAddress, AggregateNow(H, m, env, kind, members));
      }
    }
  }

  /** The first unusable member decides the error. */
  lemma ComposeRefusal(
    H: Hasher, m: Accounts, env: Env, user: Key, kind: AggregateKind, members: seq<Address>, hashAddress: Address,
    voteAddress: Address, n: nat)
    requires Consistent(H, m) && n <= |members| && LiveMembers(m, members[..n])
    ensures var outcome := Apply(H, m, env, Compose(user, kind, members, hashAddress, voteAddress));
            && (members == [] ==> outcome == Failure(if kind.BatchKind? then BatchMembersEmpty else PackMembersEmpty))
            && (n < |members| && At(m, members[n]).owner != Program ==> outcome == Failure(WrongProgram(kind)))
            && (n < |members| && LiveMember(m, members[n]) && members[n] in members[..n] ==>
                  outcome == Failure(DuplicateOf(kind)))
  {
    if n < |members| {
      var upTo := members[..n + 1];
      assert upTo[..n] == members[..n] && upTo[n] == members[n];
      MembersOutcome(H, m, kind, members[..n]);
      LastMemberOutcome(H, m, kind, members[..n], members[n]);
      if LoadMembers(H, m, kind, upTo).Failure? {
        LoadingFails(H, m, kind, members, n + 1);
      }
    }
  }
}
