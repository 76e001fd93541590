/** Across layers: whatever the SDK compiles, the on-chain verifier accepts, in exactly the
    order it was compiled. */
module CompilerCorrectness {
  import opened Outcomes
  import opened Encoding
  import opened Records
  import opened Ledger
  import opened DependencyWalk
  import opened ProofGraph
  import opened ProofShape
  import opened ProofMeaning
  import opened AnchorBinding
  import opened Archives
  import opened ProofCompiler

  // ----- The two walks agree under renaming identities to addresses

  function AddressSet(ids: set<Digest>): set<Address> {
    set id | id in ids :: HashPda(id)
  }

  function Renamed(w: Walk<Digest>): Walk<Address> {
    match w
    case Done(order) => Done(AddressesOf(order))
    case Cycle(at) => Cycle(HashPda(at))
    case Missing(at) => Missing(HashPda(at))
    case Unknown(at) => Unknown(HashPda(at))
  }

  /** `g` shows the graph `h` over addresses, on all of `h`. */
  ghost predicate Mirrors(g: Graph<Address>, h: Graph<Digest>) {
    forall id | id in h ::
      && h[id].Some? && (forall d | d in h[id].value :: d in h)
      && HashPda(id) in g && g[HashPda(id)] == Some(AddressesOf(h[id].value))
  }

  lemma RenamedMember(order: seq<Digest>, v: Digest)
    ensures v in order <==> HashPda(v) in AddressesOf(order)
  {
    if v in order {
      var i :| 0 <= i < |order| && order[i] == v;
      assert AddressesOf(order)[i] == HashPda(v);
    }
  }

  lemma {:induction false} VisitRenamed(
    g: Graph<Address>, h: Graph<Digest>, v: Digest, active: set<Digest>, order: seq<Digest>)
    requires Mirrors(g, h) && v in h
    ensures Visit(g, HashPda(v), AddressSet(active), AddressesOf(order), true)
         == Renamed(Visit(h, v, active, order, true))
    decreases h.Keys - active, 0
  {
    RenamedMember(order, v);
    assert HashPda(v) in AddressSet(active) <==> v in active;
    if v !in order && v !in active {
      var deps := DependencyWalk.Dependencies(h, v);
      VisitAllRenamed(g, h, deps, active + {v}, order);
      assert AddressSet(active + {v}) == AddressSet(active) + {HashPda(v)};
      var w := VisitAll(h, deps, active + {v}, order, true);
      if w.Done? {
        assert AddressesOf(w.order + [v]) == AddressesOf(w.order) + [HashPda(v)];
      }
    }
  }

  lemma {:induction false} VisitAllRenamed(
    g: Graph<Address>, h: Graph<Digest>, vs: seq<Digest>, active: set<Digest>, order: seq<Digest>)
    requires Mirrors(g, h) && forall v | v in vs :: v in h
    ensures VisitAll(g, AddressesOf(vs), AddressSet(active), AddressesOf(order), true)
         == Renamed(VisitAll(h, vs, active, order, true))
    decreases h.Keys - active, |vs| + 1
  {
    if vs != [] {
      VisitRenamed(g, h, vs[0], active, order);
      assert AddressesOf(vs)[1..] == AddressesOf(vs[1..]);
      var first := Visit(h, vs[0], active, order, true);
      if first.Done? {
        VisitAllRenamed(g, h, vs[1..], active, first.order);
      }
    }
  }

  // ----- The compiled proof's shape

  ghost predicate Compiles(H: Hasher, nodes: Nodes, anchor: Address, targets: seq<Address>, existing: set<Address>) {
    ValidNodes(H, nodes) && CompiledProof(nodes, anchor, targets, existing).Success?
  }

  /** A proof compiles exactly when the anchor reaches only known nodes on no cycle, all distinct
      targets among them, and each account it reaches has a snapshot or is taken as existing. */
  lemma CompilesExactly(nodes: Nodes, anchor: Address, targets: seq<Address>, existing: set<Address>)
    ensures CompiledProof(nodes, anchor, targets, existing).Success? <==>
            && Walkable(GraphOfNodes(nodes), [anchor], true) && Distinct(targets)
            && (forall t | t in targets :: Reaches(GraphOfNodes(nodes), anchor, t))
            && (forall a | Reaches(GraphOfNodes(nodes), anchor, a) ::
                  a in nodes && (nodes[a].record.source.Account? && nodes[a].snapshot.None? ==>
                                   a == anchor || a in existing))
  {
    var g := GraphOfNodes(nodes);
    WalkCorrect(g, [anchor], true);
    WalkedAreCompilable(nodes, anchor);
    var w := VisitAll(g, [anchor], {}, [], true);
    if w.Done? {
      forall a
        ensures Reaches(g, anchor, a) <==> a in w.order
      {
        if Reaches(g, anchor, a) {
          assert anchor in [anchor];
        }
      }
      EntriesCompile(nodes, [anchor] + Without(w.order, anchor), Elements(targets), existing + {anchor});
    }
  }

  ghost function Order(nodes: Nodes, anchor: Address): seq<Address>
    requires VisitAll(GraphOfNodes(nodes), [anchor], {}, [], true).Done?
  {
    VisitAll(GraphOfNodes(nodes), [anchor], {}, [], true).order
  }

  lemma {:induction false} WithoutLast(order: seq<Address>, anchor: Address)
    requires forall i | 0 <= i < |order| :: order[i] != anchor
    ensures Without(order, anchor) == order
    decreases |order|
  {
    if order != [] {
      var n := |order| - 1;
      WithoutLast(order[..n], anchor);
      assert order[n] != anchor;
      assert order == order[..n] + [order[n]];
    }
  }

  /** The compiled addresses: the anchor, then the post-order of everything else. */
  ghost function Listed(nodes: Nodes, anchor: Address): seq<Address>
    requires VisitAll(GraphOfNodes(nodes), [anchor], {}, [], true).Done?
  {
    [anchor] + Without(Order(nodes, anchor), anchor)
  }

  /** A complete walk ends at its root and is closed under dependencies. */
  lemma OrderIsClosed(nodes: Nodes, anchor: Address)
    requires VisitAll(GraphOfNodes(nodes), [anchor], {}, [], true).Done?
    ensures var order := Order(nodes, anchor);
            && Distinct(order)
            && forall a | a in order ::
                 Compilable(nodes, a) && forall d | d in NodeDependencies(nodes[a]).value :: d in order
  {
    var g, order := GraphOfNodes(nodes), Order(nodes, anchor);
    VisitAllSound(g, [anchor], {}, [], true);
    WalkedAreCompilable(nodes, anchor);
    forall a, d | a in order && d in NodeDependencies(nodes[a]).value
      ensures d in order
    {
      var i :| 0 <= i < |order| && order[i] == a;
      assert d in DependencyWalk.Dependencies(g, order[i]) && d in g;
      assert d in order[..i];
    }
  }

  lemma OrderEndsAtAnchor(nodes: Nodes, anchor: Address)
    requires VisitAll(GraphOfNodes(nodes), [anchor], {}, [], true).Done?
    ensures var order := Order(nodes, anchor); |order| > 0 && order[|order| - 1] == anchor
  {
    var g := GraphOfNodes(nodes);
    assert VisitAll(g, [anchor], {}, [], true) == Visit(g, anchor, {}, [], true) by {
      assert [anchor][1..] == [];
    }
  }

  lemma Rotated(order: seq<Address>, init: seq<Address>, anchor: Address)
    requires Distinct(order) && order == init + [anchor]
    ensures Without(order, anchor) == init && Distinct([anchor] + init)
    ensures forall a :: a in [anchor] + init <==> a in order
  {
    assert order[..|init|] == init;
    forall i | 0 <= i < |init|
      ensures init[i] != anchor
    {
      assert order[i] != order[|init|];
    }
    WithoutLast(init, anchor);
    DistinctPrefix(order, init, anchor);
  }

  lemma DistinctPrefix(order: seq<Address>, init: seq<Address>, anchor: Address)
    requires Distinct(order) && order == init + [anchor]
    ensures Distinct(init)
  {
    forall i, j | 0 <= i < j < |init|
      ensures init[i] != init[j]
    {
      assert order[i] != order[j];
    }
  }

  lemma ListedRotatesOrder(nodes: Nodes, anchor: Address)
    requires VisitAll(GraphOfNodes(nodes), [anchor], {}, [], true).Done?
    ensures var order, n := Order(nodes, anchor), |Order(nodes, anchor)| - 1;
            && n >= 0 && order[n] == anchor && Distinct(order)
            && Listed(nodes, anchor) == [anchor] + order[..n]
            && Distinct(Listed(nodes, anchor))
            && (forall a :: a in Listed(nodes, anchor) <==> a in order)
            && (forall a | a in order ::
                  Compilable(nodes, a) && forall d | d in NodeDependencies(nodes[a]).value :: d in order)
  {
    OrderIsClosed(nodes, anchor);
    OrderEndsAtAnchor(nodes, anchor);
    var order := Order(nodes, anchor);
    assert order == order[..|order| - 1] + [anchor];
    Rotated(order, order[..|order| - 1], anchor);
  }

  /** Entry `i` of a compiled proof comes from the `i`-th listed node, at its own address. */
  ghost predicate EntryFrom(
    H: Hasher, nodes: Nodes, pda: Address, targets: set<Address>, existing: set<Address>, link: Link) {
    && Compilable(nodes, pda) && WellFormedNode(H, pda, nodes[pda]) && NodeCommitted(H, nodes, nodes[pda])
    && CompileEntry(nodes, pda, targets, existing) == Success(link)
  }

  lemma CompiledEntries(H: Hasher, nodes: Nodes, anchor: Address, targets: seq<Address>, existing: set<Address>)
    requires Compiles(H, nodes, anchor, targets, existing)
    ensures VisitAll(GraphOfNodes(nodes), [anchor], {}, [], true).Done?
    ensures var proof, listed := CompiledProof(nodes, anchor, targets, existing).value, Listed(nodes, anchor);
            && |proof| == |listed| > 0
            && forall i | 0 <= i < |proof| ::
                 EntryFrom(H, nodes, listed[i], Elements(targets), existing + {anchor}, proof[i])
  {
    var proof, listed := CompiledProof(nodes, anchor, targets, existing).value, Listed(nodes, anchor);
    ListedRotatesOrder(nodes, anchor);
    forall i | 0 <= i < |proof|
      ensures EntryFrom(H, nodes, listed[i], Elements(targets), existing + {anchor}, proof[i])
    {
      assert listed[i] in listed;
      assert listed[i] in nodes;
    }
  }

  lemma EntryRecord(H: Hasher, nodes: Nodes, pda: Address, targets: set<Address>, existing: set<Address>, link: Link)
    requires EntryFrom(H, nodes, pda, targets, existing, link)
    ensures link.record == nodes[pda].record && pda == HashPda(link.record.Id(H))
  {
  }

  /** Each of these fingerprints is that of the node at the same place. */
  ghost predicate Fingerprinted(nodes: Nodes, addresses: seq<Address>, metas: seq<Fingerprint>) {
    && |metas| == |addresses|
    && forall k | 0 <= k < |addresses| ::
         addresses[k] in nodes && metas[k] == nodes[addresses[k]].record.AsFingerprint()
  }

  /** A raw target carries its digest and other raw records nothing; an account its snapshot unless
      it exists; the rest their dependencies' fingerprints in order. */
  ghost predicate Carries(nodes: Nodes, pda: Address, targets: set<Address>, existing: set<Address>, link: Link)
    requires pda in nodes
  {
    link.record == nodes[pda].record &&
    match (link.record.source, link.params)
    case (Raw, params) => params == if pda in targets then Some(RawParams(link.record.hash)) else None
    case (Account(_), Some(AccountParams(snapshot))) =>
      snapshot == if pda in existing then None else nodes[pda].snapshot
    case (Branch(previous, _, _), Some(BranchParams(parent))) => Fingerprinted(nodes, [HashPda(previous)], [parent])
    case (Batch(members), Some(BatchParams(metas))) => Fingerprinted(nodes, AddressesOf(members), metas)
    case (Pack, Some(PackParams(metas))) =>
      nodes[pda].members.Some? && Fingerprinted(nodes, nodes[pda].members.value, metas)
    case _ => false
  }

  lemma EntryCarries(H: Hasher, nodes: Nodes, pda: Address, targets: set<Address>, existing: set<Address>, link: Link)
    requires EntryFrom(H, nodes, pda, targets, existing, link)
    ensures Carries(nodes, pda, targets, existing, link)
  {
    forall k | 0 <= k < |NodeDependencies(nodes[pda]).value|
      ensures NodeDependencies(nodes[pda]).value[k] in nodes
    {
      assert NodeDependencies(nodes[pda]).value[k] in NodeDependencies(nodes[pda]).value;
    }
  }

  /** Every compiled link carries exactly that, the anchor counting as existing. */
  lemma CompiledParameters(
    H: Hasher, nodes: Nodes, anchor: Address, targets: seq<Address>, existing: set<Address>, i: nat)
    requires Compiles(H, nodes, anchor, targets, existing)
    requires i < |CompiledProof(nodes, anchor, targets, existing).value|
    ensures var link := CompiledProof(nodes, anchor, targets, existing).value[i];
            var pda := HashPda(link.record.Id(H));
            pda in nodes && Carries(nodes, pda, Elements(targets), existing + {anchor}, link)
  {
    CompiledEntries(H, nodes, anchor, targets, existing);
    var proof, pda := CompiledProof(nodes, anchor, targets, existing).value, Listed(nodes, anchor)[i];
    EntryRecord(H, nodes, pda, Elements(targets), existing + {anchor}, proof[i]);
    EntryCarries(H, nodes, pda, Elements(targets), existing + {anchor}, proof[i]);
  }

  ghost predicate ProperlyAddressed(H: Hasher, nodes: Nodes, addresses: seq<Address>) {
    forall a | a in addresses :: a in nodes && WellFormedNode(H, a, nodes[a])
  }

  lemma FingerprintAddresses(H: Hasher, nodes: Nodes, addresses: seq<Address>)
    requires AllPresent(nodes, addresses) && ProperlyAddressed(H, nodes, addresses)
    ensures AddressesOf(Ids(H, FingerprintsAt(nodes, addresses))) == addresses
    ensures Stamps(FingerprintsAt(nodes, addresses)) == StampsOf(RecordsAt(nodes, addresses))
  {
    forall i | 0 <= i < |addresses|
      ensures HashPda(FingerprintsAt(nodes, addresses)[i].Id(H)) == addresses[i]
    {
      assert addresses[i] in addresses;
    }
  }

  lemma AddressesInjective(a: seq<Digest>, b: seq<Digest>)
    requires AddressesOf(a) == AddressesOf(b)
    ensures a == b
  {
    forall i | 0 <= i < |a|
      ensures a[i] == b[i]
    {
      assert AddressesOf(a)[i] == AddressesOf(b)[i];
    }
  }

  /** A compiled entry declares exactly its node's dependencies. */
  lemma EntryDependencies(
    H: Hasher, nodes: Nodes, pda: Address, targets: set<Address>, existing: set<Address>, link: Link)
    requires EntryFrom(H, nodes, pda, targets, existing, link)
    requires ProperlyAddressed(H, nodes, NodeDependencies(nodes[pda]).value)
    ensures LinkDependencies(H, link).Success?
    ensures AddressesOf(LinkDependencies(H, link).value) == NodeDependencies(nodes[pda]).value
  {
    var dependencies := NodeDependencies(nodes[pda]).value;
    match link.record.source
    case Pack => FingerprintAddresses(H, nodes, dependencies);
    case Branch(previous, _, _) => assert AddressesOf([previous]) == [HashPda(previous)];
    case _ => assert AddressesOf([]) == [];
  }

  /** A compiled entry's commitments hold among the compiled entries. */
  lemma EntryCommitted(
    H: Hasher, nodes: Nodes, pda: Address, targets: set<Address>, existing: set<Address>, link: Link, proof: seq<Link>,
    accountExists: bool)
    requires EntryFrom(H, nodes, pda, targets, existing, link)
    requires ProperlyAddressed(H, nodes, NodeDependencies(nodes[pda]).value)
    requires forall d | d in NodeDependencies(nodes[pda]).value :: Describes(proof, nodes[d].record.AsFingerprint())
    requires pda in existing && link.record.source.Account? ==> accountExists
    ensures Committed(H, proof, link, accountExists)
  {
    var node, dependencies := nodes[pda], NodeDependencies(nodes[pda]).value;
    match link.record.source
    case Branch(previous, _, _) =>
      assert dependencies[0] in dependencies;
    case Batch(members) =>
      MembersFor(H, nodes, dependencies, proof);
      AddressesInjective(members, Ids(H, FingerprintsAt(nodes, dependencies)));
    case Pack =>
      MembersFor(H, nodes, dependencies, proof);
      var ids := Ids(H, FingerprintsAt(nodes, dependencies));
      forall i, j | 0 <= i < j < |ids|
        ensures ids[i] != ids[j]
      {
        assert AddressesOf(ids)[i] != AddressesOf(ids)[j];
      }
    case _ =>
  }

  lemma MembersFor(H: Hasher, nodes: Nodes, dependencies: seq<Address>, proof: seq<Link>)
    requires AllPresent(nodes, dependencies) && ProperlyAddressed(H, nodes, dependencies)
    requires forall d | d in dependencies :: Describes(proof, nodes[d].record.AsFingerprint())
    ensures AddressesOf(Ids(H, FingerprintsAt(nodes, dependencies))) == dependencies
    ensures Stamps(FingerprintsAt(nodes, dependencies)) == StampsOf(RecordsAt(nodes, dependencies))
    ensures forall f | f in FingerprintsAt(nodes, dependencies) :: Describes(proof, f)
  {
    FingerprintAddresses(H, nodes, dependencies);
    forall f | f in FingerprintsAt(nodes, dependencies)
      ensures Describes(proof, f)
    {
      var i :| 0 <= i < |dependencies| && FingerprintsAt(nodes, dependencies)[i] == f;
      assert dependencies[i] in dependencies;
    }
  }

  // ----- Acceptance

  /** 1, 2, ..., n - 1, 0. */
  function AnchorLast(n: nat): seq<nat> {
    seq(n, k requires 0 <= k < n => if k == n - 1 then 0 else k + 1)
  }

  lemma CompiledIds(H: Hasher, nodes: Nodes, anchor: Address, targets: seq<Address>, existing: set<Address>)
    requires Compiles(H, nodes, anchor, targets, existing)
    ensures VisitAll(GraphOfNodes(nodes), [anchor], {}, [], true).Done?
    ensures var proof := CompiledProof(nodes, anchor, targets, existing).value;
            AddressesOf(ProofIds(H, proof)) == Listed(nodes, anchor) && Distinct(ProofIds(H, proof))
  {
    CompiledEntries(H, nodes, anchor, targets, existing);
    ListedRotatesOrder(nodes, anchor);
    var proof, listed := CompiledProof(nodes, anchor, targets, existing).value, Listed(nodes, anchor);
    forall i | 0 <= i < |proof|
      ensures HashPda(ProofIds(H, proof)[i]) == listed[i]
    {
      EntryRecord(H, nodes, listed[i], Elements(targets), existing + {anchor}, proof[i]);
    }
    var ids := ProofIds(H, proof);
    forall i, j | 0 <= i < j < |ids|
      ensures ids[i] != ids[j]
    {
      assert listed[i] != listed[j];
    }
  }

  lemma ListedDependencies(H: Hasher, nodes: Nodes, anchor: Address, i: nat)
    requires ValidNodes(H, nodes) && VisitAll(GraphOfNodes(nodes), [anchor], {}, [], true).Done?
    requires i < |Listed(nodes, anchor)|
    ensures Compilable(nodes, Listed(nodes, anchor)[i])
    ensures var ds := NodeDependencies(nodes[Listed(nodes, anchor)[i]]).value;
            ProperlyAddressed(H, nodes, ds) && forall d | d in ds :: d in Listed(nodes, anchor)
  {
    ListedRotatesOrder(nodes, anchor);
    assert Listed(nodes, anchor)[i] in Listed(nodes, anchor);
  }

  lemma CompiledMirrors(H: Hasher, nodes: Nodes, anchor: Address, targets: seq<Address>, existing: set<Address>)
    requires Compiles(H, nodes, anchor, targets, existing)
    ensures var proof := CompiledProof(nodes, anchor, targets, existing).value;
            && DeclaresDependencies(H, proof)
            && Distinct(ProofIds(H, proof))
            && Mirrors(GraphOfNodes(nodes), GraphOfProof(H, proof))
  {
    var proof := CompiledProof(nodes, anchor, targets, existing).value;
    CompiledEntries(H, nodes, anchor, targets, existing);
    CompiledIds(H, nodes, anchor, targets, existing);
    var listed, ids := Listed(nodes, anchor), ProofIds(H, proof);
    forall i | 0 <= i < |proof|
      ensures LinkDependencies(H, proof[i]).Success?
      ensures AddressesOf(LinkDependencies(H, proof[i]).value) == NodeDependencies(nodes[listed[i]]).value
    {
      ListedDependencies(H, nodes, anchor, i);
      EntryDependencies(H, nodes, listed[i], Elements(targets), existing + {anchor}, proof[i]);
    }
    GraphRepresents(ids, AllDependencies(H, proof).value);
    var h := GraphOfProof(H, proof);
    forall id | id in h
      ensures h[id].Some? && (forall d | d in h[id].value :: d in h)
      ensures HashPda(id) in nodes && NodeDependencies(nodes[HashPda(id)]) == Some(AddressesOf(h[id].value))
    {
      var i :| 0 <= i < |ids| && ids[i] == id;
      assert listed[i] == HashPda(id) && h[id] == Some(LinkDependencies(H, proof[i]).value);
      ListedDependencies(H, nodes, anchor, i);
      forall d | d in h[id].value
        ensures d in h
      {
        RenamedMember(h[id].value, d);
        assert HashPda(d) in listed;
        RenamedMember(ids, d);
      }
    }
  }

  /** The program's walk of a compiled proof visits the entries in the order 1, ..., n - 1, 0. */
  lemma CompiledParses(H: Hasher, nodes: Nodes, anchor: Address, targets: seq<Address>, existing: set<Address>)
    requires Compiles(H, nodes, anchor, targets, existing)
    ensures var proof := CompiledProof(nodes, anchor, targets, existing).value;
            Parse(H, proof) == Success(AnchorLast(|proof|))
  {
    var proof := CompiledProof(nodes, anchor, targets, existing).value;
    CompiledMirrors(H, nodes, anchor, targets, existing);
    CompiledIds(H, nodes, anchor, targets, existing);
    ListedRotatesOrder(nodes, anchor);
    SingleRoot(GraphOfNodes(nodes), anchor);
    MirroredParse(H, proof, GraphOfNodes(nodes), anchor, Order(nodes, anchor));
  }

  lemma SingleRoot(g: Graph<Address>, anchor: Address)
    ensures VisitAll(g, [anchor], {}, [], true) == Visit(g, anchor, {}, [], true)
  {
    assert [anchor][1..] == [];
  }

  lemma ParseConcludes(H: Hasher, proof: seq<Link>)
    requires proof != [] && Distinct(ProofIds(H, proof)) && DeclaresDependencies(H, proof)
    ensures var ids, w := ProofIds(H, proof), Visit(GraphOfProof(H, proof), ProofIds(H, proof)[0], {}, [], true);
            && (w.Done? ==> forall x | x in w.order :: x in ids)
            && Parse(H, proof) == Conclude(ids, w)
  {
    VisitedAreEntries(GraphOfProof(H, proof), ProofIds(H, proof));
  }

  lemma MirroredWalk(g: Graph<Address>, h: Graph<Digest>, root: Digest, order: seq<Address>)
    requires Mirrors(g, h) && root in h && Visit(g, HashPda(root), {}, [], true) == Done(order)
    ensures Visit(h, root, {}, [], true).Done?
    ensures AddressesOf(Visit(h, root, {}, [], true).order) == order
  {
    assert AddressSet({}) == {} && AddressesOf([]) == [];
    VisitRenamed(g, h, root, {}, []);
  }

  lemma MirroredParse(H: Hasher, proof: seq<Link>, g: Graph<Address>, anchor: Address, order: seq<Address>)
    requires proof != [] && Distinct(ProofIds(H, proof)) && DeclaresDependencies(H, proof)
    requires Mirrors(g, GraphOfProof(H, proof)) && Visit(g, anchor, {}, [], true) == Done(order)
    requires |order| > 0 && order[|order| - 1] == anchor
    requires AddressesOf(ProofIds(H, proof)) == [anchor] + order[..|order| - 1]
    ensures Parse(H, proof) == Success(AnchorLast(|proof|))
  {
    var ids, h := ProofIds(H, proof), GraphOfProof(H, proof);
    GraphRepresents(ids, AllDependencies(H, proof).value);
    assert HashPda(ids[0]) == AddressesOf(ids)[0] == anchor;
    MirroredWalk(g, h, ids[0], order);
    ParseConcludes(H, proof);
    RotatedPositions(ids, Visit(h, ids[0], {}, [], true).order, order, anchor);
  }

  lemma RotatedPositions(ids: seq<Digest>, walked: seq<Digest>, order: seq<Address>, anchor: Address)
    requires Distinct(ids) && AddressesOf(walked) == order && |order| > 0
    requires AddressesOf(ids) == [anchor] + order[..|order| - 1] && order[|order| - 1] == anchor
    ensures |walked| == |ids| && forall x | x in walked :: x in ids
    ensures Positions(ids, walked) == AnchorLast(|ids|)
  {
    var n := |ids|;
    forall k | 0 <= k < n
      ensures ids[AnchorLast(n)[k]] == walked[k]
    {
      assert AddressesOf(ids)[AnchorLast(n)[k]] == order[k] == AddressesOf(walked)[k];
    }
    PositionsUnique(ids, walked, AnchorLast(n));
  }

  /** Every proof the SDK compiles from a valid archive is accepted on chain, provided the
      account records declared existing (and so compiled without a snapshot) do exist. */
  lemma CompiledProofAccepted(
    H: Hasher, nodes: Nodes, anchor: Address, targets: seq<Address>, existing: set<Address>, existingIndices: set<nat>)
    requires Compiles(H, nodes, anchor, targets, existing)
    requires var proof := CompiledProof(nodes, anchor, targets, existing).value;
             forall i | 0 <= i < |proof| && proof[i].record.source.Account?
                        && HashPda(proof[i].record.Id(H)) in existing + {anchor} :: i in existingIndices
    ensures Accepted(H, CompiledProof(nodes, anchor, targets, existing).value, existingIndices)
  {
    var proof := CompiledProof(nodes, anchor, targets, existing).value;
    CompiledParses(H, nodes, anchor, targets, existing);
    CompiledEntries(H, nodes, anchor, targets, existing);
    CompiledIds(H, nodes, anchor, targets, existing);
    var listed := Listed(nodes, anchor);
    forall i | 0 <= i < |proof|
      ensures Committed(H, proof, proof[i], i in existingIndices)
    {
      ListedDependencies(H, nodes, anchor, i);
      forall d | d in NodeDependencies(nodes[listed[i]]).value
        ensures Describes(proof, nodes[d].record.AsFingerprint())
      {
        var j :| 0 <= j < |listed| && listed[j] == d;
        EntryRecord(H, nodes, listed[j], Elements(targets), existing + {anchor}, proof[j]);
      }
      EntryRecord(H, nodes, listed[i], Elements(targets), existing + {anchor}, proof[i]);
      EntryCommitted(H, nodes, listed[i], Elements(targets), existing + {anchor}, proof[i], proof,
                     i in existingIndices);
    }
    ValidatedExactlyWhenCommitted(H, proof, existingIndices);
  }
}
