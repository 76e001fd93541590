/** No invented history: every record that is ever live, restored ones included, was stamped
    by a real creation with exactly that clock value. */
module Provenance {
  import opened Outcomes
  import opened Encoding
  import opened Records
  import opened Ledger
  import opened Totals
  import opened LedgerEffects
  import opened LedgerInvariant
  import opened ProofGraph
  import opened Justification
  import opened AnchorBinding
  import opened Restoring
  import opened Instructions
  import opened Runs

  predicate IsCreation(i: Instruction) {
    i.Register? || i.HashAccount? || i.Compose? || i.BranchFrom?
  }

  /** The record a successful creating instruction stamps with the current clock. */
  ghost function Stamped(H: Hasher, m: Accounts, action: Action): History {
    if IsCreation(action.instruction) && Apply(H, m, action.env, action.instruction).Success?
    then {NewRecord(H, m, action.env, action.instruction).value} else {}
  }

  /** Every record stamped so far, closed and replaced ones included. */
  ghost function HistoryOf(H: Hasher, m: Accounts, actions: seq<Action>): History {
    if actions == [] then {}
    else
      var n := |actions| - 1;
      HistoryOf(H, m, actions[..n]) + Stamped(H, Run(H, m, actions[..n]), actions[n])
  }

  ghost function NewRecordStrings(H: Hasher, m: Accounts, env: Env, i: Instruction): set<Bytes>
    requires IsCreation(i) && NewRecord(H, m, env, i).Success?
  {
    var r := NewRecord(H, m, env, i).value;
    {IdPreimage(r.hash, r.source.Kind())} +
    match i
    case Register(_, _, _, _) => {}
    case HashAccount(_, target, snapshot, _, _) => {MetadataPreimage(target, snapshot)}
    case Compose(_, kind, members, _, _) =>
      {AggregatePreimage(StampsOf(MemberRecords(LoadMembers(H, m, kind, members).value)))}
    case BranchFrom(_, hashAddress, _, _, _, payload, _) =>
      var parent := At(m, hashAddress).data.hash.record;
      {BranchPreimage(parent.Id(H), parent.source.Kind(), parent.createdAt, parent.source.Generation(), payload)}
  }

  /** The strings a successful instruction hashes. */
  ghost function Hashed(H: Hasher, m: Accounts, action: Action): set<Bytes> {
    if Apply(H, m, action.env, action.instruction).Failure? then {}
    else if IsCreation(action.instruction) then NewRecordStrings(H, m, action.env, action.instruction)
    else if action.instruction.RestoreProof? then ProofStrings(action.instruction.proof)
    else {}
  }

  ghost function HashedInRun(H: Hasher, m: Accounts, actions: seq<Action>): set<Bytes> {
    if actions == [] then {}
    else
      var n := |actions| - 1;
      HashedInRun(H, m, actions[..n]) + Hashed(H, Run(H, m, actions[..n]), actions[n])
  }

  // ----- What the ledger and the history keep together

  /** The history is justified, account keys included, and holds every live record. */
  ghost predicate Genuine(H: Hasher, m: Accounts, history: History, hashed: set<Bytes>) {
    && AllJustified(H, history, hashed)
    && (forall r | r in history :: AccountBound(H, hashed, r))
    && (forall id :: RecordFrom(m, history, id))
  }

  ghost predicate RecordFrom(m: Accounts, history: History, id: Digest) {
    At(m, HashPda(id)).owner == Program && At(m, HashPda(id)).data.HashData? ==>
      At(m, HashPda(id)).data.hash.record in history
  }

  lemma LiveIsGenuine(H: Hasher, m: Accounts, history: History, hashed: set<Bytes>, address: Address)
    requires Consistent(H, m) && Genuine(H, m, history, hashed)
    requires At(m, address).owner == Program && At(m, address).data.HashData?
    ensures At(m, address).data.hash.record in history
  {
    LoadedIsLive(H, m, address);
    assert RecordFrom(m, history, address.id);
  }

  lemma GenuineGrows(H: Hasher, m: Accounts, history: History, hashed: set<Bytes>, added: History, strings: set<Bytes>)
    requires Genuine(H, m, history, hashed)
    requires forall r | r in added ::
              Justified(H, history + added, hashed + strings, r) && AccountBound(H, hashed + strings, r)
    ensures Genuine(H, m, history + added, hashed + strings)
  {
    forall r | r in history + added
      ensures Justified(H, history + added, hashed + strings, r) && AccountBound(H, hashed + strings, r)
    {
      if r in history {
        JustifiedGrows(H, history, hashed, history + added, hashed + strings, r);
        assert AccountBound(H, hashed, r);
        if r.source.Account? {
          var s: Snapshot :|
            MetadataPreimage(r.source.account, s) in hashed && H(MetadataPreimage(r.source.account, s)) == r.hash;
          assert MetadataPreimage(r.source.account, s) in hashed + strings;
        }
      }
    }
    forall id
      ensures RecordFrom(m, history + added, id)
    {
      assert RecordFrom(m, history, id);
    }
  }

  // ----- Creating instructions

  lemma {:induction false} MembersGenuine(
    H: Hasher, m: Accounts, history: History, hashed: set<Bytes>, kind: AggregateKind, members: seq<Address>)
    requires Consistent(H, m) && Genuine(H, m, history, hashed) && LoadMembers(H, m, kind, members).Success?
    ensures forall i | 0 <= i < |members| :: LoadMembers(H, m, kind, members).value[i].record in history
    decreases |members|
  {
    if members != [] {
      var n := |members| - 1;
      MembersGenuine(H, m, history, hashed, kind, members[..n]);
      LiveIsGenuine(H, m, history, hashed, members[n]);
    }
  }

  lemma ComposeJustified(H: Hasher, m: Accounts, history: History, hashed: set<Bytes>, env: Env, i: Instruction)
    requires Consistent(H, m) && Genuine(H, m, history, hashed)
    requires i.Compose? && NewRecord(H, m, env, i).Success?
    ensures var r, strings := NewRecord(H, m, env, i).value, hashed + NewRecordStrings(H, m, env, i);
            Justified(H, history, strings, r) && AccountBound(H, strings, r)
  {
    var r, strings := NewRecord(H, m, env, i).value, hashed + NewRecordStrings(H, m, env, i);
    MembersGenuine(H, m, history, hashed, i.kind, i.members);
    var states := LoadMembers(H, m, i.kind, i.members).value;
    var records := MemberRecords(states);
    assert forall x | x in records :: x in history;
    assert Aggregates(H, history, strings, r, records);
  }

  /** A newly stamped record is justified by records that are live when it is stamped. */
  lemma StampJustified(H: Hasher, m: Accounts, history: History, hashed: set<Bytes>, env: Env, i: Instruction)
    requires Consistent(H, m) && Genuine(H, m, history, hashed)
    requires IsCreation(i) && NewRecord(H, m, env, i).Success?
    ensures var r, strings := NewRecord(H, m, env, i).value, hashed + NewRecordStrings(H, m, env, i);
            Justified(H, history, strings, r) && AccountBound(H, strings, r)
  {
    var r, strings := NewRecord(H, m, env, i).value, hashed + NewRecordStrings(H, m, env, i);
    match i
    case Compose(_, _, _, _, _) => ComposeJustified(H, m, history, hashed, env, i);
    case BranchFrom(_, hashAddress, _, _, _, _, _) =>
      var parent := At(m, hashAddress).data.hash.record;
      LiveIsGenuine(H, m, history, hashed, hashAddress);
      assert parent in history && ChildOf(H, strings, r, parent);
    case HashAccount(_, target, snapshot, _, _) =>
      assert MetadataPreimage(target, snapshot) in strings;
    case Register(_, _, _, _) =>
  }

  // ----- Restoring

  /** An accepted proof lists only genuine records: the anchor binds all of them. */
  lemma ProofEntryGenuine(
    H: Hasher, m: Accounts, history: History, hashed: set<Bytes>, proof: seq<Link>, existing: set<nat>, i: nat)
    requires Genuine(H, m, history, hashed) && CollisionFree(H, hashed)
    requires Accepted(H, proof, existing) && ProofStrings(proof) <= hashed && proof[0].record in history
    requires i < |proof| && (i in existing ==> proof[i].record in history)
    ensures proof[i].record in history
  {
    var s := EntryBound(H, proof, existing, history, hashed, i);
    CommittedAt(H, proof, existing, i);
    if i !in existing && proof[i].record.source.Account? {
      LinkStringsHashed(proof, i, hashed);
      AccountKeyBound(H, hashed, proof[i].record.source.account, proof[i].params.value.snapshot.value, s);
    }
  }

  lemma {:induction false} ExistingAreLive(
    H: Hasher, m: Accounts, payer: Key, proof: seq<Link>, bound: Pairs, n: nat, i: nat)
    requires n <= |proof| && Existing(H, m, payer, proof, bound, n).Success?
    requires i in Existing(H, m, payer, proof, bound, n).value && i != 0
    ensures i < n && i in bound
    ensures At(m, bound[i].hash.address).owner == Program && At(m, bound[i].hash.address).data.HashData?
    ensures At(m, bound[i].hash.address).data.hash.record == proof[i].record
    decreases n
  {
    if n > 1 && i in Existing(H, m, payer, proof, bound, n - 1).value {
      ExistingAreLive(H, m, payer, proof, bound, n - 1, i);
    }
  }

  lemma RestoreGenuine(H: Hasher, m: Accounts, env: Env, history: History, hashed: set<Bytes>, i: Instruction)
    requires Consistent(H, m) && Genuine(H, m, history, hashed) && CollisionFree(H, hashed)
    requires i.RestoreProof? && Apply(H, m, env, i).Success? && ProofStrings(i.proof) <= hashed
    ensures forall k | 0 <= k < |i.proof| :: i.proof[k].record in history
  {
    var bound := Bind(H, i.user, i.proof, i.remaining).value;
    var existing := Existing(H, m, i.user, i.proof, bound, |i.proof|).value;
    LiveIsGenuine(H, m, history, hashed, i.anchor);
    forall k | 0 <= k < |i.proof|
      ensures i.proof[k].record in history
    {
      if k in existing && k != 0 {
        ExistingAreLive(H, m, i.user, i.proof, bound, |i.proof|, k);
        LiveIsGenuine(H, m, history, hashed, bound[k].hash.address);
      }
      ProofEntryGenuine(H, m, history, hashed, i.proof, existing, k);
    }
  }

  // ----- Where live records come from

  /** Records live after an operation were live before or come from `added`. */
  ghost predicate RecordsFrom(m: Accounts, m': Accounts, added: History) {
    forall id :: RecordKept(m, m', added, id)
  }

  ghost predicate RecordKept(m: Accounts, m': Accounts, added: History, id: Digest) {
    var before, after := At(m, HashPda(id)), At(m', HashPda(id));
    after.owner == Program && after.data.HashData? ==>
      || after.data.hash.record in added
      || (before.owner == Program && before.data.HashData? && before.data.hash.record == after.data.hash.record)
  }

  lemma CreationRecords(
    H: Hasher, m: Accounts, env: Env, payer: Key, hashAddress: Address, voteAddress: Address, record: Record)
    requires CreateWithInitialVote(H, m, env, payer, hashAddress, voteAddress, record).Success?
    ensures RecordsFrom(m, CreateWithInitialVote(H, m, env, payer, hashAddress, voteAddress, record).value, {record})
  {
    CreateWithInitialVoteEffect(H, m, env, payer, hashAddress, voteAddress, record, Lamports);
  }

  lemma {:induction false} ExecutionRecords(
    H: Hasher, m: Accounts, env: Env, payer: Key, proof: seq<Link>, bound: Pairs, creations: seq<nat>)
    requires Executable(proof, bound, creations) && Execute(H, m, env, payer, proof, bound, creations).Success?
    ensures RecordsFrom(m, Execute(H, m, env, payer, proof, bound, creations).value, RecordsIn(proof))
    decreases |creations|
  {
    if creations != [] {
      var n := |creations| - 1;
      ExecutionRecords(H, m, env, payer, proof, bound, creations[..n]);
      var before, i := Execute(H, m, env, payer, proof, bound, creations[..n]).value, creations[n];
      var after := Execute(H, m, env, payer, proof, bound, creations).value;
      CreationRecords(H, before, env, payer, bound[i].hash.address, bound[i].vote.address, proof[i].record);
      assert proof[i].record in RecordsIn(proof);
      forall id
        ensures RecordKept(m, after, RecordsIn(proof), id)
      {
        assert RecordKept(m, before, RecordsIn(proof), id) && RecordKept(before, after, {proof[i].record}, id);
      }
    }
  }

  lemma ReleaseRecords(H: Hasher, m: Accounts, env: Env, user: Key, id: Digest)
    requires At(m, VotePda(user, id)).owner == Program && LiveVote(m, user, id) && LiveRecord(H, m, id)
    requires Release(H, m, env, HashPda(id), At(m, HashPda(id)).data.hash,
                     VotePda(user, id), At(m, VotePda(user, id)).data.vote, user).Success?
    ensures RecordsFrom(m, Release(H, m, env, HashPda(id), At(m, HashPda(id)).data.hash, VotePda(user, id),
                                   At(m, VotePda(user, id)).data.vote, user).value, {})
  {
    ReleaseEffect(H, m, env, At(m, HashPda(id)).data.hash, At(m, VotePda(user, id)).data.vote, user, Lamports);
  }

  ghost function Added(H: Hasher, m: Accounts, action: Action): History {
    if action.instruction.RestoreProof? then RecordsIn(action.instruction.proof) else Stamped(H, m, action)
  }

  lemma BranchRecords(H: Hasher, m: Accounts, env: Env, i: Instruction)
    requires Consistent(H, m) && i.BranchFrom? && Apply(H, m, env, i).Success?
    ensures RecordsFrom(m, Apply(H, m, env, i).value, {NewRecord(H, m, env, i).value})
  {
    var record := NewRecord(H, m, env, i).value;
    BranchCreates(H, m, env, i);
    CreationRecords(H, m, env, i.user, i.newHashAddress, i.newVoteAddress, record);
    if i.takeVote {
      BranchMigrates(H, m, env, i);
      ReleaseRecords(H, Branched(H, m, env, i).value, env, i.user, i.hashAddress.id);
      RecordsFromTwice(m, Branched(H, m, env, i).value, Apply(H, m, env, i).value, {record});
    }
  }

  lemma RecordsFromTwice(m: Accounts, middle: Accounts, after: Accounts, added: History)
    requires RecordsFrom(m, middle, added) && RecordsFrom(middle, after, {})
    ensures RecordsFrom(m, after, added)
  {
    forall id
      ensures RecordKept(m, after, added, id)
    {
      assert RecordKept(m, middle, added, id) && RecordKept(middle, after, {}, id);
    }
  }

  lemma VoteRecords(H: Hasher, m: Accounts, env: Env, i: Instruction)
    requires Consistent(H, m) && (i.Vote? || i.Unvote? || i.Donate?) && Apply(H, m, env, i).Success?
    ensures RecordsFrom(m, Apply(H, m, env, i).value, {})
  {
    if i.Donate? {
      SystemTransferEffect(m, Wallet(i.user), i.to, i.amount, Lamports);
    } else {
      LoadedIsLive(H, m, i.hashAddress);
      if i.Vote? {
        AddVoteEffect(H, m, env, i.user, i.voteAddress, At(m, i.hashAddress).data.hash, Lamports);
      } else {
        VoteImpliesRecord(H, m, i.user, i.hashAddress.id);
        ReleaseRecords(H, m, env, i.user, i.hashAddress.id);
      }
    }
  }

  lemma RestoreRecordsFrom(H: Hasher, m: Accounts, env: Env, i: Instruction)
    requires i.RestoreProof? && Apply(H, m, env, i).Success?
    ensures RecordsFrom(m, Apply(H, m, env, i).value, RecordsIn(i.proof))
  {
    var bound := Bind(H, i.user, i.proof, i.remaining).value;
    var order, existing := Parse(H, i.proof).value, Existing(H, m, i.user, i.proof, bound, |i.proof|).value;
    ParsedIndices(H, i.proof);
    CreationsExecutable(i.proof, order, bound, existing);
    ExecutionRecords(H, m, env, i.user, i.proof, bound, Creations(order, bound.Keys, existing));
  }

  lemma ApplyRecords(H: Hasher, m: Accounts, action: Action)
    requires Consistent(H, m) && Apply(H, m, action.env, action.instruction).Success?
    ensures RecordsFrom(m, Apply(H, m, action.env, action.instruction).value, Added(H, m, action))
  {
    var env, i := action.env, action.instruction;
    match i
    case Register(_, _, _, _) => CreationRecords(H, m, env, i.user, i.hashAddress, i.voteAddress,
                                                 NewRecord(H, m, env, i).value);
    case HashAccount(_, _, _, _, _) => CreationRecords(H, m, env, i.user, i.hashAddress, i.voteAddress,
                                                       NewRecord(H, m, env, i).value);
    case Compose(_, _, _, _, _) => CreationRecords(H, m, env, i.user, i.hashAddress, i.voteAddress,
                                                   NewRecord(H, m, env, i).value);
    case BranchFrom(_, _, _, _, _, _, _) => BranchRecords(H, m, env, i);
    case RestoreProof(_, _, _, _) => RestoreRecordsFrom(H, m, env, i);
    case _ => VoteRecords(H, m, env, i);
  }

  // ----- Runs

  lemma StepGenuine(H: Hasher, m: Accounts, history: History, hashed: set<Bytes>, action: Action)
    requires Consistent(H, m) && Genuine(H, m, history, hashed)
    requires CollisionFree(H, hashed + Hashed(H, m, action))
    ensures Genuine(H, Step(H, m, action.env, action.instruction), history + Stamped(H, m, action),
                    hashed + Hashed(H, m, action))
  {
    var env, i := action.env, action.instruction;
    var history', hashed' := history + Stamped(H, m, action), hashed + Hashed(H, m, action);
    if IsCreation(i) && Apply(H, m, env, i).Success? {
      StampJustified(H, m, history, hashed, env, i);
      JustifiedGrows(H, history, hashed', history', hashed', NewRecord(H, m, env, i).value);
    }
    GenuineGrows(H, m, history, hashed, Stamped(H, m, action), Hashed(H, m, action));
    if Apply(H, m, env, i).Success? {
      ApplyRecords(H, m, action);
      if i.RestoreProof? {
        RestoreGenuine(H, m, env, history', hashed', i);
      }
      var after := Apply(H, m, env, i).value;
      forall id
        ensures RecordFrom(after, history', id)
      {
        assert RecordFrom(m, history', id) && RecordKept(m, after, Added(H, m, action), id);
      }
    }
  }

  lemma {:induction false} RunsStayGenuine(H: Hasher, m: Accounts, actions: seq<Action>)
    requires Genesis(m) && CollisionFree(H, HashedInRun(H, m, actions))
    ensures Genuine(H, Run(H, m, actions), HistoryOf(H, m, actions), HashedInRun(H, m, actions))
    decreases |actions|
  {
    GenesisConsistent(H, m);
    if actions == [] {
      forall id
        ensures RecordFrom(m, {}, id)
      {
        assert At(m, HashPda(id)).owner != Program;
      }
    } else {
      var n := |actions| - 1;
      RunsStayGenuine(H, m, actions[..n]);
      RunsStayConsistent(H, m, actions[..n]);
      StepGenuine(H, Run(H, m, actions[..n]), HistoryOf(H, m, actions[..n]), HashedInRun(H, m, actions[..n]),
                  actions[n]);
    }
  }

  /** Step `k` of the run is a creation that stamped exactly this record. */
  ghost predicate StampedAt(H: Hasher, m: Accounts, actions: seq<Action>, r: Record, k: nat) {
    && k < |actions|
    && IsCreation(actions[k].instruction)
    && Apply(H, Run(H, m, actions[..k]), actions[k].env, actions[k].instruction).Success?
    && NewRecord(H, Run(H, m, actions[..k]), actions[k].env, actions[k].instruction) == Success(r)
    && r.createdAt == actions[k].env.clock
  }

  lemma {:induction false} HistoryWasStamped(H: Hasher, m: Accounts, actions: seq<Action>, r: Record) returns (k: nat)
    requires r in HistoryOf(H, m, actions)
    ensures StampedAt(H, m, actions, r, k)
    decreases |actions|
  {
    var n := |actions| - 1;
    if r in HistoryOf(H, m, actions[..n]) {
      k := HistoryWasStamped(H, m, actions[..n], r);
      assert actions[..n][..k] == actions[..k];
    } else {
      k := n;
    }
  }

  /** Whatever was restored along the way, each live record's hash, source and creation time
      come from one earlier creation at that clock value, unless two strings hashed in the
      run collide. */
  lemma NoInventedHistory(H: Hasher, m: Accounts, actions: seq<Action>, id: Digest) returns (k: nat)
    requires Genesis(m) && CollisionFree(H, HashedInRun(H, m, actions))
    requires At(Run(H, m, actions), HashPda(id)).owner == Program
    ensures At(Run(H, m, actions), HashPda(id)).data.HashData?
    ensures StampedAt(H, m, actions, At(Run(H, m, actions), HashPda(id)).data.hash.record, k)
  {
    GenesisConsistent(H, m);
    RunsStayConsistent(H, m, actions);
    RunsStayGenuine(H, m, actions);
    var last := Run(H, m, actions);
    assert Placed(H, last, HashPda(id)) && RecordFrom(last, HistoryOf(H, m, actions), id);
    k := HistoryWasStamped(H, m, actions, At(last, HashPda(id)).data.hash.record);
  }
}
