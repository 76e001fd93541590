/** Real histories parse: whatever a run stamped, archived with what it was hashed from, is a valid
    archive. */
module HistoryArchives {
  import opened Outcomes
  import opened Encoding
  import opened Records
  import opened Ledger
  import opened LedgerInvariant
  import opened DependencyWalk
  import opened Justification
  import opened Instructions
  import opened Runs
  import opened Provenance
  import opened Archives
  import opened CreationOutcomes
  import opened BranchOutcomes

  // ----- How one record came about

  /** What a creating instruction stamped, in terms of the records live at the time. */
  ghost predicate Origin(H: Hasher, before: Accounts, env: Env, i: Instruction, r: Record) {
    && env.clock != 0
    && match i
       case Register(_, hash, _, _) => r == Record(hash, Raw, env.clock)
       case HashAccount(_, target, snapshot, _, _) =>
         r == Record(H(MetadataPreimage(target, snapshot)), Account(target), env.clock)
       case Compose(_, kind, members, _, _) =>
         members != [] && LiveMembers(before, members) && r == AggregateNow(H, before, env, kind, members)
       case BranchFrom(_, _, _, _, _, _, _) => ParentReady(before, i) && r == ChildOfLive(H, before, env, i)
       case _ => false
  }

  lemma StampIsOrigin(H: Hasher, before: Accounts, env: Env, i: Instruction)
    requires Consistent(H, before) && IsCreation(i) && NewRecord(H, before, env, i).Success?
    ensures Origin(H, before, env, i, NewRecord(H, before, env, i).value)
  {
    match i
    case Compose(_, kind, members, _, _) =>
      MembersOutcome(H, before, kind, members);
      ComposedNow(H, before, env, kind, members);
    case BranchFrom(_, _, _, _, _, _, _) => ChildStamped(H, before, env, i);
    case _ =>
  }

  // ----- The first time a record was stamped

  lemma {:induction false} HistoryGrows(H: Hasher, m: Accounts, actions: seq<Action>, k: nat)
    requires k <= |actions|
    ensures HistoryOf(H, m, actions[..k]) <= HistoryOf(H, m, actions)
    ensures HashedInRun(H, m, actions[..k]) <= HashedInRun(H, m, actions)
    decreases |actions|
  {
    if k < |actions| {
      assert actions[..|actions| - 1][..k] == actions[..k];
      HistoryGrows(H, m, actions[..|actions| - 1], k);
    } else {
      assert actions[..k] == actions;
    }
  }

  /** How many steps had run when `r` was first in the history. */
  ghost function Age(H: Hasher, m: Accounts, actions: seq<Action>, r: Record): (age: nat)
    ensures age <= |actions|
  {
    if actions == [] || r !in HistoryOf(H, m, actions[..|actions| - 1]) then |actions|
    else Age(H, m, actions[..|actions| - 1], r)
  }

  lemma {:induction false} FirstStamp(H: Hasher, m: Accounts, actions: seq<Action>, r: Record) returns (k: nat)
    requires r in HistoryOf(H, m, actions)
    ensures StampedAt(H, m, actions, r, k) && Age(H, m, actions, r) == k + 1
    decreases |actions|
  {
    var n := |actions| - 1;
    if r in HistoryOf(H, m, actions[..n]) {
      k := FirstStamp(H, m, actions[..n], r);
      assert actions[..n][..k] == actions[..k];
    } else {
      k := n;
    }
  }

  lemma {:induction false} AgeOfEarlier(H: Hasher, m: Accounts, actions: seq<Action>, r: Record, k: nat)
    requires k <= |actions| && r in HistoryOf(H, m, actions[..k])
    ensures Age(H, m, actions, r) <= k
    decreases |actions|
  {
    if k < |actions| {
      var init := actions[..|actions| - 1];
      assert init[..k] == actions[..k];
      HistoryGrows(H, m, init, k);
      AgeOfEarlier(H, m, init, r, k);
    }
  }

  ghost predicate RealRun(H: Hasher, m: Accounts, actions: seq<Action>) {
    Genesis(m) && CollisionFree(H, HashedInRun(H, m, actions))
  }

  /** Where a record came from, and that whatever was live then is an earlier part of the history. */
  lemma OriginOf(H: Hasher, m: Accounts, actions: seq<Action>, r: Record) returns (k: nat)
    requires RealRun(H, m, actions) && r in HistoryOf(H, m, actions)
    ensures StampedAt(H, m, actions, r, k) && Age(H, m, actions, r) == k + 1
    ensures Consistent(H, Run(H, m, actions[..k]))
    ensures Origin(H, Run(H, m, actions[..k]), actions[k].env, actions[k].instruction, r)
    ensures forall a | LiveMember(Run(H, m, actions[..k]), a) ::
              EarlierRecord(H, m, actions, Run(H, m, actions[..k]), k, a)
  {
    k := FirstStamp(H, m, actions, r);
    var before := Run(H, m, actions[..k]);
    GenesisConsistent(H, m);
    RunsStayConsistent(H, m, actions[..k]);
    StampIsOrigin(H, before, actions[k].env, actions[k].instruction);
    HistoryGrows(H, m, actions, k);
    RunsStayGenuine(H, m, actions[..k]);
    forall a | LiveMember(before, a)
      ensures EarlierRecord(H, m, actions, before, k, a)
    {
      assert RecordFrom(before, HistoryOf(H, m, actions[..k]), a.id) && Placed(H, before, a);
      AgeOfEarlier(H, m, actions, At(before, a).data.hash.record, k);
    }
  }

  ghost predicate EarlierRecord(
    H: Hasher, m: Accounts, actions: seq<Action>, before: Accounts, k: nat, a: Address)
    requires LiveMember(before, a)
  {
    var r := At(before, a).data.hash.record;
    a == HashPda(r.Id(H)) && r in HistoryOf(H, m, actions) && Age(H, m, actions, r) <= k
  }

  // ----- Archiving a run

  /** A record of the history at its own address, with at most the pack members and the snapshot
      it was hashed from. */
  ghost predicate FromHistory(H: Hasher, history: History, hashed: set<Bytes>, pda: Address, node: Node) {
    var r := node.record;
    && r in history && pda == HashPda(r.Id(H))
    && (node.members.Some? ==>
          r.source.Pack? && exists ms :: Aggregates(H, history, hashed, r, ms) && NamedBy(H, node.members.value, ms))
    && (node.snapshot.Some? ==>
          r.source.Account? && H(MetadataPreimage(r.source.account, node.snapshot.value)) == r.hash)
  }

  ghost predicate NamedBy(H: Hasher, members: seq<Address>, ms: seq<Record>) {
    members == AddressesOf(IdsOf(H, ms))
  }

  /** The addresses an origin names: its parent's or its members'. */
  ghost function Named(i: Instruction): seq<Address> {
    match i
    case Compose(_, _, members, _, _) => members
    case BranchFrom(_, hashAddress, _, _, _, _, _) => [hashAddress]
    case _ => []
  }

  /** Of what the node at `pda` was built from, whatever is archived is archived in that incarnation. */
  ghost predicate BuiltFrom(H: Hasher, m: Accounts, actions: seq<Action>, nodes: Nodes, pda: Address)
    requires pda in nodes
  {
    var k := Age(H, m, actions, nodes[pda].record) - 1;
    0 <= k < |actions| ==>
      forall a | a in Named(actions[k].instruction) && a in nodes && LiveMember(Run(H, m, actions[..k]), a) ::
        nodes[a].record == At(Run(H, m, actions[..k]), a).data.hash.record
  }

  ghost predicate Archived(H: Hasher, m: Accounts, actions: seq<Action>, nodes: Nodes) {
    forall pda | pda in nodes ::
      && FromHistory(H, HistoryOf(H, m, actions), HashedInRun(H, m, actions), pda, nodes[pda])
      && BuiltFrom(H, m, actions, nodes, pda)
  }

  /** The strings a stamping hashed are among the run's. */
  lemma StampedStrings(H: Hasher, m: Accounts, actions: seq<Action>, r: Record, k: nat)
    requires StampedAt(H, m, actions, r, k)
    ensures NewRecordStrings(H, Run(H, m, actions[..k]), actions[k].env, actions[k].instruction)
         <= HashedInRun(H, m, actions)
  {
    assert actions[..k + 1][..k] == actions[..k];
    HistoryGrows(H, m, actions, k + 1);
  }

  lemma StampsNameKeys(H: Hasher, before: Accounts, members: seq<Address>, ms: seq<Record>)
    requires Consistent(H, before) && LiveMembers(before, members) && StampsOf(ms) == StampsAt(before, members)
    ensures AddressesOf(IdsOf(H, ms)) == members
  {
    forall x | 0 <= x < |members|
      ensures HashPda(ms[x].Id(H)) == members[x]
    {
      assert StampsOf(ms)[x] == StampsAt(before, members)[x];
      assert Placed(H, before, members[x]);
    }
  }

  /** Whatever a pack's digest was taken of, it names the members handed in when it was stamped. */
  lemma PackMembersAre(H: Hasher, m: Accounts, actions: seq<Action>, r: Record, k: nat, ms: seq<Record>)
    requires RealRun(H, m, actions) && r.source.Pack? && StampedAt(H, m, actions, r, k)
    requires Aggregates(H, HistoryOf(H, m, actions), HashedInRun(H, m, actions), r, ms)
    ensures actions[k].instruction.Compose? && AddressesOf(IdsOf(H, ms)) == actions[k].instruction.members
  {
    var before, env, i := Run(H, m, actions[..k]), actions[k].env, actions[k].instruction;
    GenesisConsistent(H, m);
    RunsStayConsistent(H, m, actions[..k]);
    StampIsOrigin(H, before, env, i);
    LoadedMembers(H, before, i.kind, i.members);
    StampedStrings(H, m, actions, r, k);
    AggregateBound(H, HashedInRun(H, m, actions), StampsOf(ms), StampsAt(before, i.members));
    StampsNameKeys(H, before, i.members, ms);
  }

  /** An archived node depends on exactly what its origin named, or its membership is not known. */
  lemma DependenciesNamed(H: Hasher, m: Accounts, actions: seq<Action>, pda: Address, node: Node, k: nat)
    requires RealRun(H, m, actions) && StampedAt(H, m, actions, node.record, k)
    requires FromHistory(H, HistoryOf(H, m, actions), HashedInRun(H, m, actions), pda, node)
    requires Consistent(H, Run(H, m, actions[..k]))
    requires Origin(H, Run(H, m, actions[..k]), actions[k].env, actions[k].instruction, node.record)
    ensures NodeDependencies(node).Some? ==> NodeDependencies(node).value == Named(actions[k].instruction)
    ensures WellFormedNode(H, pda, node)
  {
    var before, i, r := Run(H, m, actions[..k]), actions[k].instruction, node.record;
    match i
    case Compose(_, _, members, _, _) =>
      if r.source.Batch? {
        assert AddressesOf(r.source.members) == members;
        BatchKeysDistinct(before, members);
      } else if node.members.Some? {
        var ms :| Aggregates(H, HistoryOf(H, m, actions), HashedInRun(H, m, actions), r, ms)
                  && NamedBy(H, node.members.value, ms);
        PackMembersAre(H, m, actions, r, k, ms);
      }
    case BranchFrom(_, hashAddress, _, _, _, _, _) =>
      assert Placed(H, before, hashAddress);
    case _ =>
  }

  lemma BatchKeysDistinct(before: Accounts, members: seq<Address>)
    requires LiveMembers(before, members)
    ensures Distinct(KeysAt(members))
  {
    forall x, y | 0 <= x < y < |members|
      ensures KeysAt(members)[x] != KeysAt(members)[y]
    {
      assert members[x] != members[y];
    }
  }

  lemma NamedAreLive(H: Hasher, before: Accounts, env: Env, i: Instruction, r: Record)
    requires Origin(H, before, env, i, r)
    ensures forall a | a in Named(i) :: LiveMember(before, a)
  {
    if i.Compose? {
      forall a | a in Named(i)
        ensures LiveMember(before, a)
      {
        var x :| 0 <= x < |i.members| && i.members[x] == a;
      }
    }
  }

  /** Digest and generation hold whenever the archived dependencies are those live at the origin. */
  lemma OriginCommitted(H: Hasher, nodes: Nodes, node: Node, before: Accounts, env: Env, i: Instruction)
    requires Consistent(H, before) && Origin(H, before, env, i, node.record)
    requires NodeDependencies(node).Some? ==> NodeDependencies(node).value == Named(i)
    requires forall a | a in Named(i) && a in nodes ::
               LiveMember(before, a) && nodes[a].record == At(before, a).data.hash.record
    requires node.snapshot.Some? ==>
               node.record.source.Account?
               && H(MetadataPreimage(node.record.source.account, node.snapshot.value)) == node.record.hash
    ensures NodeCommitted(H, nodes, node)
  {
    match i
    case Compose(_, _, members, _, _) =>
      if NodeDependencies(node).Some? && AllPresent(nodes, members) {
        assert StampsOf(RecordsAt(nodes, members)) == StampsAt(before, members);
      }
    case BranchFrom(_, hashAddress, _, _, _, _, _) =>
      assert Placed(H, before, hashAddress);
      assert hashAddress in Named(i);
    case _ =>
  }

  /** One archived node is well formed and committed, and depends only on older ones. */
  lemma ArchivedNode(H: Hasher, m: Accounts, actions: seq<Action>, nodes: Nodes, pda: Address)
    requires RealRun(H, m, actions) && Archived(H, m, actions, nodes) && pda in nodes
    ensures WellFormedNode(H, pda, nodes[pda]) && NodeCommitted(H, nodes, nodes[pda])
    ensures forall d | d in DependencyWalk.Dependencies(GraphOfNodes(nodes), pda) && d in nodes ::
              Age(H, m, actions, nodes[d].record) < Age(H, m, actions, nodes[pda].record)
  {
    var node := nodes[pda];
    assert BuiltFrom(H, m, actions, nodes, pda);
    var k := OriginOf(H, m, actions, node.record);
    var before, env, i := Run(H, m, actions[..k]), actions[k].env, actions[k].instruction;
    DependenciesNamed(H, m, actions, pda, node, k);
    NamedAreLive(H, before, env, i, node.record);
    forall a | a in Named(i) && a in nodes
      ensures LiveMember(before, a) && nodes[a].record == At(before, a).data.hash.record
      ensures Age(H, m, actions, nodes[a].record) <= k
    {
      assert EarlierRecord(H, m, actions, before, k, a);
    }
    OriginCommitted(H, nodes, node, before, env, i);
  }

  /** Records of any run's history, archived with any of their pack members and hashed snapshots and
      next to the incarnations they were built from, form a valid archive if they are few enough. */
  lemma HistoriesParse(H: Hasher, m: Accounts, actions: seq<Action>, nodes: Nodes)
    requires RealRun(H, m, actions) && Archived(H, m, actions, nodes) && |nodes| <= MAX_ARCHIVE_NODES
    ensures ValidNodes(H, nodes)
  {
    var rank := (a: Address) => if a in nodes then Age(H, m, actions, nodes[a].record) else -1;
    forall pda | pda in nodes
      ensures WellFormedNode(H, pda, nodes[pda]) && NodeCommitted(H, nodes, nodes[pda])
      ensures forall d | d in DependencyWalk.Dependencies(GraphOfNodes(nodes), pda) :: rank(d) < rank(pda)
    {
      ArchivedNode(H, m, actions, nodes, pda);
    }
    forall a
      ensures !DependsOn(GraphOfNodes(nodes), a, a)
    {
      RankedIsAcyclic(GraphOfNodes(nodes), rank, a);
    }
  }

  /** When no identity was stamped as two different records, any part of the history will do. */
  lemma SingleIncarnations(H: Hasher, m: Accounts, actions: seq<Action>, nodes: Nodes)
    requires RealRun(H, m, actions)
    requires var history := HistoryOf(H, m, actions);
             && (forall r, s | r in history && s in history && r.Id(H) == s.Id(H) :: r == s)
             && forall pda | pda in nodes :: FromHistory(H, history, HashedInRun(H, m, actions), pda, nodes[pda])
    ensures Archived(H, m, actions, nodes)
  {
    forall pda | pda in nodes
      ensures BuiltFrom(H, m, actions, nodes, pda)
    {
      var k := OriginOf(H, m, actions, nodes[pda].record);
      forall a | a in Named(actions[k].instruction) && a in nodes && LiveMember(Run(H, m, actions[..k]), a)
        ensures nodes[a].record == At(Run(H, m, actions[..k]), a).data.hash.record
      {
        assert EarlierRecord(H, m, actions, Run(H, m, actions[..k]), k, a);
        assert FromHistory(H, HistoryOf(H, m, actions), HashedInRun(H, m, actions), a, nodes[a]);
      }
    }
  }
}
