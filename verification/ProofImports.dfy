/** What importing a proof accepts and yields, and that every proof the program accepts can be
    imported. */
module ProofImports {
  import opened Outcomes
  import opened Encoding
  import opened Records
  import opened Ledger
  import opened DependencyWalk
  import opened ProofGraph
  import opened ProofShape
  import opened ProofMeaning
  import opened AnchorBinding
  import opened Archives
  import opened Importing

  // ----- Exactly what is imported

  /** The parameters a link carries agree with its record, as far as the link alone shows. */
  ghost predicate Agrees(H: Hasher, link: Link) {
    var source := link.record.source;
    match link.params
    case None => true
    case Some(RawParams(payload)) =>
      source.Raw? && payload != [] && (payload == link.record.hash || H(payload) == link.record.hash)
    case Some(AccountParams(_)) => source.Account?
    case Some(BranchParams(parent)) => source.Branch? && parent.Id(H) == source.previousHashId
    case Some(BatchParams(metas)) => source.Batch? && Ids(H, metas) == source.members
    case Some(PackParams(_)) => source.Pack?
  }

  /** The record, with the pack members and the snapshot the link supplies. */
  ghost function NodeOf(H: Hasher, link: Link): Node {
    match link.params
    case Some(AccountParams(snapshot)) => Node(link.record, None, snapshot)
    case Some(PackParams(metas)) => Node(link.record, Some(AddressesOf(Ids(H, metas))), None)
    case _ => Node(link.record, None, None)
  }

  ghost function AddressOf(H: Hasher, link: Link): Address {
    HashPda(link.record.Id(H))
  }

  /** One node for each entry, at the entry's own address. */
  ghost predicate NodesOf(H: Hasher, proof: seq<Link>, nodes: Nodes) {
    && (forall a :: a in nodes <==> a in AddressesOf(ProofIds(H, proof)))
    && forall i | 0 <= i < |proof| :: AddressOf(H, proof[i]) in nodes
                                      && nodes[AddressOf(H, proof[i])] == NodeOf(H, proof[i])
  }

  lemma NodeOutcome(H: Hasher, link: Link)
    ensures ImportNode(H, link).Success? <==> Agrees(H, link)
    ensures ImportNode(H, link).Success? ==> ImportNode(H, link).value == NodeOf(H, link)
  {
  }

  lemma IdsSplit(H: Hasher, proof: seq<Link>)
    requires proof != []
    ensures var n := |proof| - 1;
            && AddressesOf(ProofIds(H, proof)) == AddressesOf(ProofIds(H, proof[..n])) + [AddressOf(H, proof[n])]
            && (Distinct(ProofIds(H, proof)) <==>
                Distinct(ProofIds(H, proof[..n]))
                && AddressOf(H, proof[n]) !in AddressesOf(ProofIds(H, proof[..n])))
  {
    var n := |proof| - 1;
    var all, init := ProofIds(H, proof), ProofIds(H, proof[..n]);
    assert all == init + [all[n]];
    if AddressOf(H, proof[n]) in AddressesOf(init) {
      var k :| 0 <= k < n && AddressesOf(init)[k] == AddressOf(H, proof[n]);
      assert all[k] == all[n];
    }
    if Distinct(init) && !Distinct(all) {
      var i, j :| 0 <= i < j < |all| && all[i] == all[j];
      assert j == n && AddressesOf(init)[i] == AddressOf(H, proof[n]);
    }
    if Distinct(all) {
      assert forall i | 0 <= i < n :: init[i] == all[i];
    }
  }

  ghost predicate AllAgree(H: Hasher, proof: seq<Link>) {
    forall i | 0 <= i < |proof| :: Agrees(H, proof[i])
  }

  lemma AgreeSplit(H: Hasher, proof: seq<Link>)
    requires proof != []
    ensures AllAgree(H, proof) <==>
            AllAgree(H, proof[..|proof| - 1]) && Agrees(H, proof[|proof| - 1])
  {
    assert forall i | 0 <= i < |proof| - 1 :: proof[..|proof| - 1][i] == proof[i];
  }

  lemma {:induction false} NodesOutcome(H: Hasher, proof: seq<Link>)
    ensures ImportNodes(H, proof).Success? <==>
            Distinct(ProofIds(H, proof)) && AllAgree(H, proof)
    ensures ImportNodes(H, proof).Success? ==> NodesOf(H, proof, ImportNodes(H, proof).value)
    decreases |proof|
  {
    if proof != [] {
      var n := |proof| - 1;
      NodesOutcome(H, proof[..n]);
      NodeOutcome(H, proof[n]);
      IdsSplit(H, proof);
      AgreeSplit(H, proof);
      if ImportNodes(H, proof[..n]).Success? {
        OneNodeMore(H, proof, ImportNodes(H, proof[..n]).value);
      }
    }
  }

  lemma OneNodeMore(H: Hasher, proof: seq<Link>, before: Nodes)
    requires proof != [] && NodesOf(H, proof[..|proof| - 1], before)
    ensures var n := |proof| - 1;
            AddressOf(H, proof[n]) !in before ==>
              NodesOf(H, proof, before[AddressOf(H, proof[n]) := NodeOf(H, proof[n])])
  {
    var n := |proof| - 1;
    IdsSplit(H, proof);
    assert forall i | 0 <= i < n :: proof[..n][i] == proof[i];
  }

  lemma NodesUnique(H: Hasher, proof: seq<Link>, a: Nodes, b: Nodes)
    requires NodesOf(H, proof, a) && NodesOf(H, proof, b)
    ensures a == b
  {
    forall x | x in a
      ensures x in b && a[x] == b[x]
    {
      var i :| 0 <= i < |proof| && AddressesOf(ProofIds(H, proof))[i] == x;
      assert AddressOf(H, proof[i]) == x;
    }
    assert a.Keys == b.Keys;
  }

  /** The entry this fingerprint names was created when, and at the generation, it says. */
  ghost predicate Fits(H: Hasher, proof: seq<Link>, f: Fingerprint) {
    exists j :: 0 <= j < |proof| && FitsEntry(H, proof[j].record, f)
  }

  ghost predicate FitsEntry(H: Hasher, r: Record, f: Fingerprint) {
    r.Id(H) == f.Id(H) && r.createdAt == f.createdAt && r.source.Generation() == f.generation
  }

  lemma FitsOutcome(H: Hasher, proof: seq<Link>, nodes: Nodes, f: Fingerprint)
    requires NodesOf(H, proof, nodes)
    ensures FingerprintKept(H, nodes, f) <==> Fits(H, proof, f)
  {
    if HashPda(f.Id(H)) in nodes {
      var i :| 0 <= i < |proof| && AddressesOf(ProofIds(H, proof))[i] == HashPda(f.Id(H));
      assert AddressOf(H, proof[i]) == HashPda(f.Id(H));
      assert FingerprintKept(H, nodes, f) ==> FitsEntry(H, proof[i].record, f);
    }
    if j :| 0 <= j < |proof| && FitsEntry(H, proof[j].record, f) {
      assert AddressOf(H, proof[j]) == HashPda(f.Id(H));
    }
  }

  ghost predicate AllFit(H: Hasher, proof: seq<Link>) {
    forall i, f | 0 <= i < |proof| && f in FingerprintsIn(proof[i]) :: Fits(H, proof, f)
  }

  /** Identities are distinct, every link agrees with its own parameters, the nodes are the entries'
      and form a valid archive, and every fingerprint fits an entry. */
  ghost predicate IsImport(H: Hasher, proof: seq<Link>, nodes: Nodes) {
    && Distinct(ProofIds(H, proof))
    && AllAgree(H, proof)
    && NodesOf(H, proof, nodes) && ValidNodes(H, nodes)
    && AllFit(H, proof)
  }

  /** Importing yields exactly that, so nothing imported contradicts a supplied payload, fingerprint
      or snapshot. */
  lemma ImportedExactly(H: Hasher, proof: seq<Link>, nodes: Nodes)
    ensures Imported(H, proof) == Some(nodes) <==> IsImport(H, proof, nodes)
  {
    NodesOutcome(H, proof);
    if ImportNodes(H, proof).Success? {
      var imported := ImportNodes(H, proof).value;
      if NodesOf(H, proof, nodes) {
        NodesUnique(H, proof, imported, nodes);
      }
      AllFitOutcome(H, proof, imported);
    }
  }

  lemma AllFitOutcome(H: Hasher, proof: seq<Link>, nodes: Nodes)
    requires NodesOf(H, proof, nodes)
    ensures (forall link | link in proof :: FingerprintsKept(H, nodes, link)) <==> AllFit(H, proof)
  {
    forall i, f | 0 <= i < |proof| && f in FingerprintsIn(proof[i])
      ensures FingerprintKept(H, nodes, f) <==> Fits(H, proof, f)
    {
      FitsOutcome(H, proof, nodes, f);
    }
    if forall link | link in proof :: FingerprintsKept(H, nodes, link) {
      forall i, f | 0 <= i < |proof| && f in FingerprintsIn(proof[i])
        ensures Fits(H, proof, f)
      {
        assert proof[i] in proof && FingerprintsKept(H, nodes, proof[i]);
      }
    }
    if AllFit(H, proof) {
      forall link | link in proof
        ensures FingerprintsKept(H, nodes, link)
      {
        var i :| 0 <= i < |proof| && proof[i] == link;
      }
    }
  }

  lemma ImportOutcome(H: Hasher, proof: seq<Link>)
    ensures Imported(H, proof).Some? ==> IsImport(H, proof, Imported(H, proof).value)
    ensures Imported(H, proof).None? ==> !exists nodes :: IsImport(H, proof, nodes)
  {
    if Imported(H, proof).Some? {
      ImportedExactly(H, proof, Imported(H, proof).value);
    }
    if nodes :| IsImport(H, proof, nodes) {
      ImportedExactly(H, proof, nodes);
    }
  }

  // ----- The import as the SDK runs it

  method CollectEntries(H: Hasher, proof: seq<Link>) returns (r: Result<Nodes, ArchiveError>)
    ensures r.Success? <==> ImportNodes(H, proof).Success?
    ensures r.Success? ==> r == ImportNodes(H, proof)
  {
    var nodes: Nodes := map[];
    for i := 0 to |proof|
      invariant ImportNodes(H, proof[..i]) == Success(nodes)
    {
      assert proof[..i + 1][..i] == proof[..i];
      var node := ImportNode(H, proof[i]);
      var pda := HashPda(proof[i].record.Id(H));
      if node.Failure? || pda in nodes {
        ImportFailsAt(H, proof, i + 1);
        return Failure(InvalidProof);
      }
      nodes := nodes[pda := node.value];
    }
    assert proof[..|proof|] == proof;
    r := Success(nodes);
  }

  method ArchiveFromProof(H: Hasher, programId: Key, proof: seq<Link>) returns (r: Result<Archive, ArchiveError>)
    ensures r.Success? <==> Imported(H, proof).Some?
    ensures r.Success? ==> r.value == Archive(programId, Imported(H, proof).value)
    ensures r.Success? ==> IsImport(H, proof, r.value.nodes)
    ensures r.Failure? ==> !exists nodes :: IsImport(H, proof, nodes)
  {
    ImportOutcome(H, proof);
    var nodes := CollectEntries(H, proof);
    if nodes.Failure? {
      return Failure(nodes.error);
    }
    var parsed := ParseArchive(H, Archive(programId, nodes.value));
    if parsed.Failure? {
      return parsed;
    }
    var kept := KeepsFingerprints(H, nodes.value, proof);
    r := if kept then parsed else Failure(InvalidProof);
  }

  /** No supplied fingerprint contradicts the imported nodes. */
  method KeepsFingerprints(H: Hasher, nodes: Nodes, proof: seq<Link>) returns (ok: bool)
    ensures ok <==> forall link | link in proof :: FingerprintsKept(H, nodes, link)
  {
    for i := 0 to |proof|
      invariant forall k | 0 <= k < i :: FingerprintsKept(H, nodes, proof[k])
    {
      if !FingerprintsKept(H, nodes, proof[i]) {
        assert proof[i] in proof;
        return false;
      }
    }
    ok := true;
  }

  lemma {:induction false} ImportFailsAt(H: Hasher, proof: seq<Link>, n: nat)
    requires n <= |proof| && ImportNodes(H, proof[..n]).Failure?
    ensures ImportNodes(H, proof).Failure?
    decreases |proof|
  {
    if n == |proof| {
      assert proof[..n] == proof;
    } else {
      assert proof[..|proof| - 1][..n] == proof[..n];
      ImportFailsAt(H, proof[..|proof| - 1], n);
    }
  }

  // ----- Whatever the program accepts can be imported

  lemma CommittedAgrees(H: Hasher, proof: seq<Link>, link: Link, accountExists: bool)
    requires Committed(H, proof, link, accountExists)
    ensures Agrees(H, link)
    ensures forall f | f in FingerprintsIn(link) :: Describes(proof, f)
  {
  }

  /** A described dependency is the very entry at its address. */
  lemma DescribedNode(H: Hasher, proof: seq<Link>, nodes: Nodes, f: Fingerprint)
    requires NodesOf(H, proof, nodes) && Describes(proof, f)
    ensures HashPda(f.Id(H)) in nodes && nodes[HashPda(f.Id(H))].record.AsFingerprint() == f
    ensures Fits(H, proof, f)
  {
    var j :| 0 <= j < |proof| && proof[j].record.AsFingerprint() == f;
    assert AddressOf(H, proof[j]) == HashPda(f.Id(H));
    assert FitsEntry(H, proof[j].record, f);
  }

  lemma AcceptedNodeFields(H: Hasher, proof: seq<Link>, existing: set<nat>, i: nat)
    requires Accepted(H, proof, existing) && i < |proof|
    ensures WellFormedNode(H, AddressOf(H, proof[i]), NodeOf(H, proof[i]))
    ensures LinkDependencies(H, proof[i]).Success?
    ensures NodeDependencies(NodeOf(H, proof[i])) == Some(AddressesOf(LinkDependencies(H, proof[i]).value))
  {
    AllCommitted(H, proof, existing);
    var link := proof[i];
    assert Committed(H, proof, link, i in existing) && LinkDependencies(H, link).Success?;
    match link.record.source
    case Pack =>
      var ids := Ids(H, link.params.value.members);
      forall x, y | 0 <= x < y < |ids|
        ensures AddressesOf(ids)[x] != AddressesOf(ids)[y]
      {
        assert ids[x] != ids[y];
      }
    case Branch(previous, _, _) =>
      assert AddressesOf([previous]) == [HashPda(previous)];
    case Batch(_) =>
    case _ =>
      assert AddressesOf([]) == [];
  }

  lemma AcceptedNodeCommitted(H: Hasher, proof: seq<Link>, existing: set<nat>, nodes: Nodes, i: nat)
    requires Accepted(H, proof, existing) && i < |proof| && NodesOf(H, proof, nodes)
    ensures NodeCommitted(H, nodes, NodeOf(H, proof[i]))
  {
    CommittedAt(H, proof, existing, i);
    var link := proof[i];
    CommittedAgrees(H, proof, link, i in existing);
    match link.record.source
    case Branch(_, _, _) =>
      assert link.params.value.parent in FingerprintsIn(link);
      DescribedNode(H, proof, nodes, link.params.value.parent);
    case Batch(_) => MembersAt(H, proof, nodes, link.params.value.members);
    case Pack => MembersAt(H, proof, nodes, link.params.value.members);
    case _ =>
  }

  lemma MembersAt(H: Hasher, proof: seq<Link>, nodes: Nodes, metas: seq<Fingerprint>)
    requires NodesOf(H, proof, nodes) && forall f | f in metas :: Describes(proof, f)
    ensures AllPresent(nodes, AddressesOf(Ids(H, metas)))
    ensures StampsOf(RecordsAt(nodes, AddressesOf(Ids(H, metas)))) == Stamps(metas)
  {
    forall k | 0 <= k < |metas|
      ensures AddressesOf(Ids(H, metas))[k] in nodes
      ensures nodes[AddressesOf(Ids(H, metas))[k]].record.AsStamp() == metas[k].AsStamp()
    {
      assert metas[k] in metas;
      DescribedNode(H, proof, nodes, metas[k]);
    }
  }

  ghost predicate Holds(H: Hasher, proof: seq<Link>, order: seq<nat>, k: nat, a: Address) {
    k < |order| && order[k] < |proof| && AddressOf(H, proof[order[k]]) == a
  }

  /** Where the order holds the entry of this address. */
  ghost function RankIn(H: Hasher, proof: seq<Link>, order: seq<nat>, a: Address): (r: int)
    ensures (exists k: nat :: Holds(H, proof, order, k, a)) ==> r >= 0 && Holds(H, proof, order, r, a)
  {
    if exists k: nat :: Holds(H, proof, order, k, a) then (var k: nat :| Holds(H, proof, order, k, a); k) else -1
  }

  lemma RankIs(H: Hasher, proof: seq<Link>, order: seq<nat>, k: nat)
    requires Distinct(ProofIds(H, proof)) && DependencyFirstOrder(H, proof, order) && k < |order|
    ensures RankIn(H, proof, order, AddressOf(H, proof[order[k]])) == k
  {
    var a := AddressOf(H, proof[order[k]]);
    assert Holds(H, proof, order, k, a);
    var j := RankIn(H, proof, order, a);
    assert ProofIds(H, proof)[order[j]] == ProofIds(H, proof)[order[k]];
    assert order[j] == order[k];
  }

  lemma DependencyBefore(H: Hasher, proof: seq<Link>, order: seq<nat>, i: nat, id: Digest)
    requires Distinct(ProofIds(H, proof)) && DependencyFirstOrder(H, proof, order) && i < |proof|
    requires LinkDependencies(H, proof[i]).Success? && id in LinkDependencies(H, proof[i]).value
    ensures RankIn(H, proof, order, HashPda(id)) < RankIn(H, proof, order, AddressOf(H, proof[i]))
  {
    assert i in order;
    var k :| 0 <= k < |order| && order[k] == i;
    var j :| 0 <= j < k && proof[order[j]].record.Id(H) == id;
    RankIs(H, proof, order, k);
    RankIs(H, proof, order, j);
  }

  lemma EntryAt(H: Hasher, proof: seq<Link>, nodes: Nodes, a: Address) returns (i: nat)
    requires NodesOf(H, proof, nodes) && a in nodes
    ensures i < |proof| && AddressOf(H, proof[i]) == a && nodes[a] == NodeOf(H, proof[i])
  {
    i :| 0 <= i < |proof| && AddressesOf(ProofIds(H, proof))[i] == a;
    assert AddressOf(H, proof[i]) == a;
  }

  /** Every edge between entries leads to an earlier position. */
  lemma EdgesFall(H: Hasher, proof: seq<Link>, existing: set<nat>, nodes: Nodes, u: Address, d: Address)
    requires Accepted(H, proof, existing) && NodesOf(H, proof, nodes)
    requires d in DependencyWalk.Dependencies(GraphOfNodes(nodes), u)
    ensures RankIn(H, proof, Parse(H, proof).value, d) < RankIn(H, proof, Parse(H, proof).value, u)
  {
    var i := EntryAt(H, proof, nodes, u);
    AcceptedNodeFields(H, proof, existing, i);
    var ids := LinkDependencies(H, proof[i]).value;
    var x :| 0 <= x < |ids| && HashPda(ids[x]) == d;
    ParsedOrder(H, proof);
    DependencyBefore(H, proof, Parse(H, proof).value, i, ids[x]);
  }

  lemma AcceptedIsAcyclic(H: Hasher, proof: seq<Link>, existing: set<nat>, nodes: Nodes)
    requires Accepted(H, proof, existing) && NodesOf(H, proof, nodes)
    ensures Acyclic(nodes)
  {
    var order := Parse(H, proof).value;
    forall u, d | d in DependencyWalk.Dependencies(GraphOfNodes(nodes), u)
      ensures RankIn(H, proof, order, d) < RankIn(H, proof, order, u)
    {
      EdgesFall(H, proof, existing, nodes, u, d);
    }
    forall a
      ensures !DependsOn(GraphOfNodes(nodes), a, a)
    {
      RankedIsAcyclic(GraphOfNodes(nodes), x => RankIn(H, proof, order, x), a);
    }
  }

  lemma {:induction false} ProofNodes(H: Hasher, proof: seq<Link>) returns (nodes: Nodes)
    requires Distinct(ProofIds(H, proof))
    ensures NodesOf(H, proof, nodes) && |nodes| == |proof|
  {
    nodes := map[];
    for n := 0 to |proof|
      invariant NodesOf(H, proof[..n], nodes) && |nodes| == n
    {
      assert proof[..n + 1][..n] == proof[..n];
      PrefixDistinct(H, proof, n + 1);
      IdsSplit(H, proof[..n + 1]);
      OneNodeMore(H, proof[..n + 1], nodes);
      nodes := nodes[AddressOf(H, proof[n]) := NodeOf(H, proof[n])];
    }
    assert proof[..|proof|] == proof;
  }

  lemma PrefixDistinct(H: Hasher, proof: seq<Link>, n: nat)
    requires Distinct(ProofIds(H, proof)) && n <= |proof|
    ensures Distinct(ProofIds(H, proof[..n]))
  {
    assert forall i | 0 <= i < n :: ProofIds(H, proof[..n])[i] == ProofIds(H, proof)[i];
  }

  lemma AcceptedIsValid(H: Hasher, proof: seq<Link>, existing: set<nat>, nodes: Nodes)
    requires Accepted(H, proof, existing) && NodesOf(H, proof, nodes) && |nodes| <= MAX_ARCHIVE_NODES
    ensures ValidNodes(H, nodes)
  {
    AcceptedIsAcyclic(H, proof, existing, nodes);
    forall a | a in nodes
      ensures WellFormedNode(H, a, nodes[a]) && NodeCommitted(H, nodes, nodes[a])
    {
      var i := EntryAt(H, proof, nodes, a);
      AcceptedNodeFields(H, proof, existing, i);
      AcceptedNodeCommitted(H, proof, existing, nodes, i);
    }
  }

  lemma AcceptedIsDistinct(H: Hasher, proof: seq<Link>, existing: set<nat>)
    requires Accepted(H, proof, existing)
    ensures Distinct(ProofIds(H, proof))
  {
    AllCommitted(H, proof, existing);
  }

  /** Every proof the program accepts, small enough for an archive, can be imported, and gives
      exactly its entries with the snapshots and pack members it supplies. */
  lemma AcceptedImports(H: Hasher, proof: seq<Link>, existing: set<nat>) returns (nodes: Nodes)
    requires Accepted(H, proof, existing) && |proof| <= MAX_ARCHIVE_NODES
    ensures Imported(H, proof) == Some(nodes) && NodesOf(H, proof, nodes)
  {
    AcceptedIsDistinct(H, proof, existing);
    nodes := ProofNodes(H, proof);
    AcceptedIsValid(H, proof, existing, nodes);
    AcceptedFits(H, proof, existing, nodes);
    ImportedExactly(H, proof, nodes);
  }

  lemma AcceptedFits(H: Hasher, proof: seq<Link>, existing: set<nat>, nodes: Nodes)
    requires Accepted(H, proof, existing) && NodesOf(H, proof, nodes)
    ensures AllFit(H, proof) && AllAgree(H, proof)
  {
    forall i | 0 <= i < |proof|
      ensures Agrees(H, proof[i])
      ensures forall f | f in FingerprintsIn(proof[i]) :: Fits(H, proof, f)
    {
      CommittedAt(H, proof, existing, i);
      CommittedAgrees(H, proof, proof[i], i in existing);
      forall f | f in FingerprintsIn(proof[i])
        ensures Fits(H, proof, f)
      {
        DescribedNode(H, proof, nodes, f);
      }
    }
  }
}
