/** Portable archives: partial histories keyed by derived address, and the checks every
    archive operation applies to them. */
module Archives {
  import opened Outcomes
  import opened Encoding
  import opened Records
  import opened Ledger
  import opened DependencyWalk
  import StackWalk

  /** One historical incarnation.  `members` is a pack's witness, `snapshot` an account's. */
  datatype Node = Node(record: Record, members: Option<seq<Address>>, snapshot: Option<Snapshot>)

  type Nodes = map<Address, Node>

  /** Addresses are relative to the archive's own program. */
  datatype Archive = Archive(programId: Key, nodes: Nodes)

  datatype ArchiveError =
    | TooManyNodes
    | InvalidNode(at: Address)
    | WrongAddress(at: Address)
    | CyclicDependencies(at: Address)
    | MissingNode(at: Address)
    | MissingPackMembers(at: Address)
    | GenerationMismatch(at: Address)
    | CommitmentMismatch(at: Address)
    | DifferentProgram
    | ConflictingIncarnation(at: Address)
    | ConflictingWitness(at: Address)
    | DuplicateTargets
    | UnreachableTarget(at: Address)
    | MissingSnapshot(at: Address)
    | InvalidProof

  const MAX_ARCHIVE_NODES := 10000

  // ----- Dependencies

  function AddressesOf(ids: seq<Digest>): (r: seq<Address>)
    ensures |r| == |ids| && forall i | 0 <= i < |r| :: r[i] == HashPda(ids[i])
  {
    seq(|ids|, i requires 0 <= i < |ids| => HashPda(ids[i]))
  }

  /** `None` when a pack's membership is unknown. */
  function NodeDependencies(node: Node): Option<seq<Address>> {
    match node.record.source
    case Branch(previous, _, _) => Some([HashPda(previous)])
    case Batch(members) => Some(AddressesOf(members))
    case Pack => node.members
    case _ => Some([])
  }

  function GraphOfNodes(nodes: Nodes): Graph<Address> {
    map pda | pda in nodes :: NodeDependencies(nodes[pda])
  }

  ghost predicate Acyclic(nodes: Nodes) {
    forall pda :: !DependsOn(GraphOfNodes(nodes), pda, pda)
  }

  // ----- Node checks

  predicate WellFormedFields(node: Node) {
    && node.record.createdAt != 0
    && (node.record.source.Branch? ==> node.record.source.generation != 0)
    && (node.record.source.Batch? ==> node.record.source.members != [] && Distinct(node.record.source.members))
    && (node.members.Some? ==> node.record.source.Pack? && node.members.value != [] && Distinct(node.members.value))
    && (node.snapshot.Some? ==> node.record.source.Account?)
  }

  predicate WellFormedNode(H: Hasher, pda: Address, node: Node) {
    WellFormedFields(node) && pda == HashPda(node.record.Id(H))
  }

  predicate AllPresent(nodes: Nodes, addresses: seq<Address>) {
    forall a | a in addresses :: a in nodes
  }

  function RecordsAt(nodes: Nodes, addresses: seq<Address>): (r: seq<Record>)
    requires AllPresent(nodes, addresses)
    ensures |r| == |addresses| && forall i | 0 <= i < |r| :: r[i] == nodes[addresses[i]].record
  {
    seq(|addresses|, i requires 0 <= i < |addresses| => assert addresses[i] in addresses; nodes[addresses[i]].record)
  }

  /** Every commitment whose inputs are present holds. */
  predicate NodeCommitted(H: Hasher, nodes: Nodes, node: Node) {
    var hash := node.record.hash;
    match node.record.source
    case Raw => true
    case Account(key) => node.snapshot.Some? ==> H(MetadataPreimage(key, node.snapshot.value)) == hash
    case Branch(previous, payload, generation) =>
      HashPda(previous) in nodes ==>
        var parent := nodes[HashPda(previous)].record;
        && generation == parent.source.Generation() + 1
        && H(BranchPreimage(parent.Id(H), parent.source.Kind(), parent.createdAt, parent.source.Generation(), payload))
           == hash
    case _ =>
      var dependencies := NodeDependencies(node);
      dependencies.Some? && AllPresent(nodes, dependencies.value) ==>
        H(AggregatePreimage(StampsOf(RecordsAt(nodes, dependencies.value)))) == hash
  }

  /** What parsing accepts. */
  ghost predicate ValidNodes(H: Hasher, nodes: Nodes) {
    && |nodes| <= MAX_ARCHIVE_NODES
    && (forall pda | pda in nodes :: WellFormedNode(H, pda, nodes[pda]))
    && Acyclic(nodes)
    && (forall pda | pda in nodes :: NodeCommitted(H, nodes, nodes[pda]))
  }

  ghost predicate ValidArchive(H: Hasher, a: Archive) {
    ValidNodes(H, a.nodes)
  }

  // ----- Inspection

  datatype Field = MembersField | SnapshotField
  datatype Witness = Witness(pda: Address, field: Field)
  datatype Inspection = Inspection(complete: bool, missingNodes: set<Address>, missingWitnesses: set<Witness>)

  ghost predicate MissingFrom(nodes: Nodes, some: set<Address>, missing: Address) {
    missing !in nodes && exists pda :: pda in some && pda in nodes && missing in Dependencies(GraphOfNodes(nodes), pda)
  }

  ghost predicate LacksWitness(nodes: Nodes, some: set<Address>, w: Witness) {
    && w.pda in some && w.pda in nodes
    && match w.field
       case MembersField => NodeDependencies(nodes[w.pda]).None?
       case SnapshotField => nodes[w.pda].record.source.Account? && nodes[w.pda].snapshot.None?
  }

  method KeysOf(nodes: Nodes) returns (keys: seq<Address>)
    ensures Elements(keys) == nodes.Keys
  {
    keys := [];
    var pending := nodes.Keys;
    while pending != {}
      invariant Elements(keys) + pending == nodes.Keys
      decreases |pending|
    {
      var pda :| pda in pending;
      pending := pending - {pda};
      keys := keys + [pda];
      assert Elements(keys) + pending == nodes.Keys;
    }
  }

  lemma WalkableIffAcyclic(nodes: Nodes, roots: seq<Address>)
    requires nodes.Keys <= Elements(roots)
    ensures Walkable(GraphOfNodes(nodes), roots, false) <==> Acyclic(nodes)
  {
    var g := GraphOfNodes(nodes);
    if Walkable(g, roots, false) {
      forall pda
        ensures !DependsOn(g, pda, pda)
      {
        if DependsOn(g, pda, pda) {
          var p :| Connects(g, p, pda, pda) && |p| >= 2;
          PathPresent(g, p);
          assert pda in Elements(roots);
          ReachesSelf(g, pda);
        }
      }
    }
  }

  method CheckAcyclic(nodes: Nodes) returns (r: Check<ArchiveError>)
    ensures r.Pass? <==> Acyclic(nodes)
  {
    var keys := KeysOf(nodes);
    var w := StackWalk.DependencyOrder(GraphOfNodes(nodes), keys, false);
    WalkCorrect(GraphOfNodes(nodes), keys, false);
    WalkableIffAcyclic(nodes, keys);
    r := if w.Done? then Pass else Fail(CyclicDependencies(w.at));
  }

  method CheckCommitment(H: Hasher, nodes: Nodes, pda: Address) returns (r: Check<ArchiveError>)
    requires pda in nodes && WellFormedNode(H, pda, nodes[pda])
    ensures r.Pass? <==> NodeCommitted(H, nodes, nodes[pda])
  {
    var node := nodes[pda];
    var expected: Option<Digest> := None;
    if node.record.source.Account? && node.snapshot.Some? {
      expected := Some(H(MetadataPreimage(node.record.source.account, node.snapshot.value)));
    }
    var dependencies := NodeDependencies(node);
    if dependencies.Some? && AllPresent(nodes, dependencies.value) {
      if node.record.source.Branch? {
        assert dependencies.value[0] in dependencies.value;
        var parent := nodes[dependencies.value[0]].record;
        if node.record.source.generation != parent.source.Generation() + 1 {
          return Fail(GenerationMismatch(pda));
        }
        expected := Some(H(BranchPreimage(parent.Id(H), parent.source.Kind(), parent.createdAt,
                                          parent.source.Generation(), node.record.source.payload)));
      } else if node.record.source.Batch? || node.record.source.Pack? {
        expected := Some(H(AggregatePreimage(StampsOf(RecordsAt(nodes, dependencies.value)))));
      }
    }
    r := if expected.Some? && expected.value != node.record.hash then Fail(CommitmentMismatch(pda)) else Pass;
  }

  method InspectNode(H: Hasher, nodes: Nodes, pda: Address)
    returns (check: Check<ArchiveError>, missing: set<Address>, witnesses: set<Witness>)
    requires pda in nodes && WellFormedNode(H, pda, nodes[pda])
    ensures check.Pass? <==> NodeCommitted(H, nodes, nodes[pda])
    ensures forall a :: a in missing <==> MissingFrom(nodes, {pda}, a)
    ensures forall w :: w in witnesses <==> LacksWitness(nodes, {pda}, w)
  {
    var node := nodes[pda];
    var dependencies := NodeDependencies(node);
    missing, witnesses := {}, {};
    if dependencies.None? {
      witnesses := {Witness(pda, MembersField)};
    } else {
      missing := set d | d in dependencies.value && d !in nodes;
    }
    if node.record.source.Account? && node.snapshot.None? {
      witnesses := witnesses + {Witness(pda, SnapshotField)};
    }
    check := CheckCommitment(H, nodes, pda);
  }

  lemma ReportsAddUp(nodes: Nodes, some: set<Address>, pda: Address)
    ensures forall a ::
      MissingFrom(nodes, some + {pda}, a) <==> MissingFrom(nodes, some, a) || MissingFrom(nodes, {pda}, a)
    ensures forall w ::
      LacksWitness(nodes, some + {pda}, w) <==> LacksWitness(nodes, some, w) || LacksWitness(nodes, {pda}, w)
  {
  }

  /** Checks what can be checked and reports what is missing, never inventing it. */
  method InspectArchiveGraph(H: Hasher, nodes: Nodes) returns (r: Result<Inspection, ArchiveError>)
    requires forall pda | pda in nodes :: WellFormedNode(H, pda, nodes[pda])
    ensures r.Success? <==> Acyclic(nodes) && forall pda | pda in nodes :: NodeCommitted(H, nodes, nodes[pda])
    ensures r.Success? ==>
              && (forall a :: a in r.value.missingNodes <==> MissingFrom(nodes, nodes.Keys, a))
              && (forall w :: w in r.value.missingWitnesses <==> LacksWitness(nodes, nodes.Keys, w))
              && (r.value.complete <==> r.value.missingNodes == {} && r.value.missingWitnesses == {})
  {
    var acyclic := CheckAcyclic(nodes);
    if acyclic.Fail? {
      return Failure(acyclic.error);
    }
    var missing: set<Address>, witnesses: set<Witness>, pending := {}, {}, nodes.Keys;
    while pending != {}
      invariant pending <= nodes.Keys
      invariant forall pda | pda in nodes.Keys - pending :: NodeCommitted(H, nodes, nodes[pda])
      invariant forall a :: a in missing <==> MissingFrom(nodes, nodes.Keys - pending, a)
      invariant forall x :: x in witnesses <==> LacksWitness(nodes, nodes.Keys - pending, x)
      decreases |pending|
    {
      var pda :| pda in pending;
      var check, missingHere, witnessesHere := InspectNode(H, nodes, pda);
      if check.Fail? {
        return Failure(check.error);
      }
      ReportsAddUp(nodes, nodes.Keys - pending, pda);
      assert nodes.Keys - (pending - {pda}) == nodes.Keys - pending + {pda};
      pending := pending - {pda};
      missing := missing + missingHere;
      witnesses := witnesses + witnessesHere;
    }
    assert nodes.Keys - pending == nodes.Keys;
    r := Success(Inspection(missing == {} && witnesses == {}, missing, witnesses));
  }

  /** Accepts exactly the valid archives, unchanged. */
  method ParseArchive(H: Hasher, input: Archive) returns (r: Result<Archive, ArchiveError>)
    ensures r.Success? <==> ValidArchive(H, input)
    ensures r.Success? ==> r.value == input
  {
    if |input.nodes| > MAX_ARCHIVE_NODES {
      return Failure(TooManyNodes);
    }
    var pending := input.nodes.Keys;
    while pending != {}
      invariant pending <= input.nodes.Keys
      invariant forall pda | pda in input.nodes.Keys - pending :: WellFormedNode(H, pda, input.nodes[pda])
      decreases |pending|
    {
      var pda :| pda in pending;
      pending := pending - {pda};
      if !WellFormedFields(input.nodes[pda]) {
        return Failure(InvalidNode(pda));
      }
      if HashPda(input.nodes[pda].record.Id(H)) != pda {
        return Failure(WrongAddress(pda));
      }
    }
    var inspected := InspectArchiveGraph(H, input.nodes);
    r := if inspected.Failure? then Failure(inspected.error) else Success(input);
  }

  /** An archive that lacks nothing can be walked completely from any of its nodes. */
  lemma CompleteArchivesWalk(H: Hasher, nodes: Nodes, roots: seq<Address>)
    requires ValidNodes(H, nodes) && forall r | r in roots :: r in nodes
    requires forall a :: !MissingFrom(nodes, nodes.Keys, a)
    requires forall w :: !LacksWitness(nodes, nodes.Keys, w)
    ensures VisitAll(GraphOfNodes(nodes), roots, {}, [], true).Done?
  {
    var g := GraphOfNodes(nodes);
    WalkCorrect(g, roots, true);
    forall r, x | r in roots && Reaches(g, r, x)
      ensures x in g && g[x].Some?
    {
      forall u, d | u in g.Keys && d in Dependencies(g, u)
        ensures d in g.Keys
      {
        assert !MissingFrom(nodes, nodes.Keys, d);
      }
      ClosedUnderDependencies(g, g.Keys, r, x);
      assert !LacksWitness(nodes, nodes.Keys, Witness(x, MembersField));
    }
  }
}
