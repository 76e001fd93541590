/** Selecting part of an archive, importing a proof as an archive, and the round trip between
    compiling and importing. */
module Importing {
  import opened Outcomes
  import opened Encoding
  import opened Records
  import opened Ledger
  import opened DependencyWalk
  import opened Archives
  import opened Merging
  import opened ProofCompiler
  import opened CompilerCorrectness

  // ----- Selecting

  function Restricted(nodes: Nodes, pdas: seq<Address>): Nodes {
    map pda | pda in pdas && pda in nodes :: nodes[pda]
  }

  function Selected(nodes: Nodes, pdas: seq<Address>, includeDependencies: bool): Result<Nodes, ArchiveError> {
    if includeDependencies then
      match VisitAll(GraphOfNodes(nodes), pdas, {}, [], true)
      case Done(order) => Success(Restricted(nodes, order))
      case Missing(at) => Failure(MissingNode(at))
      case Unknown(at) => Failure(MissingPackMembers(at))
      case Cycle(at) => Failure(CyclicDependencies(at))
    else
      var outside := FirstAbsent(pdas, nodes);
      if outside.Some? then Failure(MissingNode(outside.value)) else Success(Restricted(nodes, pdas))
  }

  function FirstAbsent(pdas: seq<Address>, nodes: Nodes): (r: Option<Address>)
    ensures r.None? <==> forall p | p in pdas :: p in nodes
  {
    if pdas == [] then None
    else
      var n := |pdas| - 1;
      var before := FirstAbsent(pdas[..n], nodes);
      if before.Some? then before else if pdas[n] !in nodes then Some(pdas[n]) else None
  }

  /** A selection is part of the archive, so it is valid whenever the archive is. */
  lemma SelectionValid(H: Hasher, a: Archive, pdas: seq<Address>)
    requires ValidArchive(H, a)
    ensures ValidArchive(H, Archive(a.programId, Restricted(a.nodes, pdas)))
    ensures Leq(Archive(a.programId, Restricted(a.nodes, pdas)), a)
  {
    ValidDownward(H, Archive(a.programId, Restricted(a.nodes, pdas)), a);
  }

  method CollectNodes(nodes: Nodes, ids: seq<Address>) returns (r: Result<Nodes, ArchiveError>)
    ensures r.Success? <==> forall a | a in ids :: a in nodes
    ensures r.Success? ==> r.value == Restricted(nodes, ids)
  {
    var collected: Nodes := map[];
    for i := 0 to |ids|
      invariant collected == Restricted(nodes, ids[..i]) && forall k | 0 <= k < i :: ids[k] in nodes
    {
      if ids[i] !in nodes {
        assert ids[i] in ids;
        return Failure(MissingNode(ids[i]));
      }
      collected := collected[ids[i] := nodes[ids[i]]];
      assert ids[..i + 1] == ids[..i] + [ids[i]];
    }
    assert ids[..|ids|] == ids;
    r := Success(collected);
  }

  method WalkFrom(nodes: Nodes, pdas: seq<Address>) returns (r: Result<seq<Address>, ArchiveError>)
    ensures r.Success? <==> VisitAll(GraphOfNodes(nodes), pdas, {}, [], true).Done?
    ensures r.Success? ==> VisitAll(GraphOfNodes(nodes), pdas, {}, [], true) == Done(r.value)
    ensures r.Success? ==> forall a | a in r.value :: a in nodes
  {
    var w := StackWalk.DependencyOrder(GraphOfNodes(nodes), pdas, true);
    match w {
      case Missing(at) => r := Failure(MissingNode(at));
      case Unknown(at) => r := Failure(MissingPackMembers(at));
      case Cycle(at) => r := Failure(CyclicDependencies(at));
      case Done(order) =>
        VisitAllSound(GraphOfNodes(nodes), pdas, {}, [], true);
        r := Success(order);
    }
  }

  method SelectArchive(H: Hasher, input: Archive, pdas: seq<Address>, includeDependencies: bool)
    returns (r: Result<Archive, ArchiveError>)
    ensures r.Success? <==> ValidArchive(H, input) && Selected(input.nodes, pdas, includeDependencies).Success?
    ensures r.Success? ==> r.value == Archive(input.programId, Selected(input.nodes, pdas, includeDependencies).value)
  {
    r := ParseArchive(H, input);
    if r.Failure? {
      return;
    }
    var ids := Success(pdas);
    if includeDependencies {
      ids := WalkFrom(input.nodes, pdas);
      if ids.Failure? {
        return Failure(ids.error);
      }
    }
    var nodes := CollectNodes(input.nodes, ids.value);
    if nodes.Failure? {
      return Failure(nodes.error);
    }
    SelectionValid(H, input, ids.value);
    r := ParseArchive(H, Archive(input.programId, nodes.value));
  }

  ghost predicate ReachedFrom(nodes: Nodes, roots: seq<Address>, a: Address) {
    exists r :: r in roots && Reaches(GraphOfNodes(nodes), r, a)
  }

  /** Everything reached is present, its dependencies known, and on no cycle. */
  ghost predicate WhollyKnown(nodes: Nodes, roots: seq<Address>) {
    forall a | ReachedFrom(nodes, roots, a) ::
      a in nodes && NodeDependencies(nodes[a]).Some? && !DependsOn(GraphOfNodes(nodes), a, a)
  }

  /** With dependencies a selection is exactly what the roots reach, without them exactly the
      named nodes, each unchanged; it fails exactly when something of that is missing. */
  lemma SelectedExactly(nodes: Nodes, roots: seq<Address>, includeDependencies: bool)
    ensures var selected := Selected(nodes, roots, includeDependencies);
            && (selected.Success? <==>
                  if includeDependencies then WhollyKnown(nodes, roots) else forall r | r in roots :: r in nodes)
            && (selected.Success? ==> forall a ::
                  && (a in selected.value <==> if includeDependencies then ReachedFrom(nodes, roots, a) else a in roots)
                  && (a in selected.value ==> a in nodes && selected.value[a] == nodes[a]))
  {
    if includeDependencies {
      var g := GraphOfNodes(nodes);
      WalkCorrect(g, roots, true);
      if WhollyKnown(nodes, roots) {
        forall r, a | r in roots && Reaches(g, r, a)
          ensures !DependsOn(g, a, a) && a in g && g[a].Some?
        {
          assert ReachedFrom(nodes, roots, a);
        }
      }
    }
  }

  // ----- Importing a proof

  function ImportNode(H: Hasher, link: Link): Result<Node, ArchiveError> {
    var node := Node(link.record, None, None);
    match (link.record.source, link.params)
    case (_, None) => Success(node)
    case (Raw, Some(RawParams(payload))) =>
      if payload == [] || (payload != link.record.hash && H(payload) != link.record.hash) then Failure(InvalidProof)
      else Success(node)
    case (Account(_), Some(AccountParams(snapshot))) => Success(node.(snapshot := snapshot))
    case (Branch(previous, _, _), Some(BranchParams(parent))) =>
      if parent.Id(H) != previous then Failure(InvalidProof) else Success(node)
    case (Batch(members), Some(BatchParams(metas))) =>
      if Ids(H, metas) != members then Failure(InvalidProof) else Success(node)
    case (Pack, Some(PackParams(metas))) => Success(node.(members := Some(AddressesOf(Ids(H, metas)))))
    case _ => Failure(InvalidProof)
  }

  function ImportNodes(H: Hasher, proof: seq<Link>): Result<Nodes, ArchiveError> {
    if proof == [] then Success(map[])
    else
      var n := |proof| - 1;
      var before :- ImportNodes(H, proof[..n]);
      var node :- ImportNode(H, proof[n]);
      var pda := HashPda(proof[n].record.Id(H));
      if pda in before then Failure(InvalidProof) else Success(before[pda := node])
  }

  predicate FingerprintKept(H: Hasher, nodes: Nodes, f: Fingerprint) {
    var pda := HashPda(f.Id(H));
    pda in nodes && nodes[pda].record.createdAt == f.createdAt && nodes[pda].record.source.Generation() == f.generation
  }

  predicate FingerprintsKept(H: Hasher, nodes: Nodes, link: Link) {
    forall f | f in FingerprintsIn(link) :: FingerprintKept(H, nodes, f)
  }

  /** What importing a proof yields. */
  ghost function Imported(H: Hasher, proof: seq<Link>): Option<Nodes> {
    var nodes := ImportNodes(H, proof);
    if nodes.Success? && ValidNodes(H, nodes.value)
       && forall link | link in proof :: FingerprintsKept(H, nodes.value, link)
    then Some(nodes.value) else None
  }

  // ----- Round trip

  lemma RestrictedOneMore(nodes: Nodes, addresses: seq<Address>)
    requires addresses != [] && Distinct(addresses) && addresses[|addresses| - 1] in nodes
    ensures var n := |addresses| - 1;
            && addresses[n] !in Restricted(nodes, addresses[..n])
            && Restricted(nodes, addresses) == Restricted(nodes, addresses[..n])[addresses[n] := nodes[addresses[n]]]
  {
    var n := |addresses| - 1;
    assert addresses == addresses[..n] + [addresses[n]];
  }

  lemma {:induction false} ImportedNodes(H: Hasher, proof: seq<Link>, addresses: seq<Address>, nodes: Nodes)
    requires |addresses| == |proof| && Distinct(addresses)
    requires forall i | 0 <= i < |proof| :: addresses[i] == HashPda(proof[i].record.Id(H))
    requires forall i | 0 <= i < |proof| ::
              addresses[i] in nodes && ImportNode(H, proof[i]) == Success(nodes[addresses[i]])
    ensures ImportNodes(H, proof) == Success(Restricted(nodes, addresses))
    decreases |proof|
  {
    if proof != [] {
      var n := |proof| - 1;
      ImportedNodes(H, proof[..n], addresses[..n], nodes);
      RestrictedOneMore(nodes, addresses);
    }
  }

  /** Nodes without the snapshots of accounts that a proof takes as existing. */
  function Omitting(nodes: Nodes, existing: set<Address>): Nodes {
    map pda | pda in nodes :: if pda in existing then nodes[pda].(snapshot := None) else nodes[pda]
  }

  /** Importing a compiled entry gives its node back, without the snapshot compilation omitted. */
  lemma EntryRoundTrip(H: Hasher, nodes: Nodes, pda: Address, targets: set<Address>, existing: set<Address>, link: Link)
    requires EntryFrom(H, nodes, pda, targets, existing, link)
    requires ProperlyAddressed(H, nodes, NodeDependencies(nodes[pda]).value)
    ensures ImportNode(H, link) == Success(Omitting(nodes, existing)[pda])
  {
    var node, dependencies := nodes[pda], NodeDependencies(nodes[pda]).value;
    match link.record.source
    case Batch(members) =>
      FingerprintAddresses(H, nodes, dependencies);
      AddressesInjective(Ids(H, FingerprintsAt(nodes, dependencies)), members);
    case Pack =>
      FingerprintAddresses(H, nodes, dependencies);
    case Branch(previous, _, _) =>
      assert dependencies[0] in dependencies;
    case _ =>
  }

  lemma OmittingValid(H: Hasher, nodes: Nodes, existing: set<Address>, part: seq<Address>)
    requires ValidNodes(H, nodes)
    ensures ValidNodes(H, Restricted(Omitting(nodes, existing), part))
  {
    var whole: Archive := Archive(seq(32, _ => 0), nodes);
    assert ValidArchive(H, whole);
    ValidDownward(H, Archive(whole.programId, Omitting(nodes, existing)), whole);
    SelectionValid(H, Archive(whole.programId, Omitting(nodes, existing)), part);
  }

  lemma EntryFingerprintsKept(
    H: Hasher, nodes: Nodes, pda: Address, targets: set<Address>, existing: set<Address>, link: Link,
    part: seq<Address>)
    requires EntryFrom(H, nodes, pda, targets, existing, link)
    requires ProperlyAddressed(H, nodes, NodeDependencies(nodes[pda]).value)
    requires forall d | d in NodeDependencies(nodes[pda]).value :: d in part
    ensures FingerprintsKept(H, Restricted(Omitting(nodes, existing), part), link)
  {
    var dependencies := NodeDependencies(nodes[pda]).value;
    forall f | f in FingerprintsIn(link)
      ensures FingerprintKept(H, Restricted(Omitting(nodes, existing), part), f)
    {
      if nodes[pda].record.source.Branch? {
        assert dependencies[0] in dependencies;
      } else {
        var i :| 0 <= i < |dependencies| && FingerprintsAt(nodes, dependencies)[i] == f;
        assert dependencies[i] in dependencies;
      }
    }
  }

  /** One compiled entry, imported next to all the others. */
  ghost predicate ImportsTo(H: Hasher, kept: Nodes, listed: seq<Address>, pda: Address, link: Link) {
    && pda in kept && pda == HashPda(link.record.Id(H)) && ImportNode(H, link) == Success(kept[pda])
    && FingerprintsKept(H, Restricted(kept, listed), link)
  }

  lemma CompiledEntryImports(
    H: Hasher, nodes: Nodes, anchor: Address, targets: seq<Address>, existing: set<Address>, i: nat)
    requires Compiles(H, nodes, anchor, targets, existing)
    requires i < |CompiledProof(nodes, anchor, targets, existing).value|
    ensures VisitAll(GraphOfNodes(nodes), [anchor], {}, [], true).Done? && i < |Listed(nodes, anchor)|
    ensures ImportsTo(H, Omitting(nodes, existing + {anchor}), Listed(nodes, anchor), Listed(nodes, anchor)[i],
                      CompiledProof(nodes, anchor, targets, existing).value[i])
  {
    var proof := CompiledProof(nodes, anchor, targets, existing).value;
    CompiledEntries(H, nodes, anchor, targets, existing);
    var listed := Listed(nodes, anchor);
    ListedDependencies(H, nodes, anchor, i);
    EntryRecord(H, nodes, listed[i], Elements(targets), existing + {anchor}, proof[i]);
    EntryRoundTrip(H, nodes, listed[i], Elements(targets), existing + {anchor}, proof[i]);
    EntryFingerprintsKept(H, nodes, listed[i], Elements(targets), existing + {anchor}, proof[i], listed);
  }

  lemma AllImport(H: Hasher, proof: seq<Link>, listed: seq<Address>, kept: Nodes)
    requires |listed| == |proof| && Distinct(listed) && ValidNodes(H, Restricted(kept, listed))
    requires forall i | 0 <= i < |proof| :: ImportsTo(H, kept, listed, listed[i], proof[i])
    ensures Imported(H, proof) == Some(Restricted(kept, listed))
  {
    forall i | 0 <= i < |proof|
      ensures listed[i] in kept && listed[i] == HashPda(proof[i].record.Id(H))
      ensures ImportNode(H, proof[i]) == Success(kept[listed[i]])
    {
      assert ImportsTo(H, kept, listed, listed[i], proof[i]);
    }
    ImportedNodes(H, proof, listed, kept);
    forall link | link in proof
      ensures FingerprintsKept(H, Restricted(kept, listed), link)
    {
      var i :| 0 <= i < |proof| && proof[i] == link;
      assert ImportsTo(H, kept, listed, listed[i], proof[i]);
    }
  }

  lemma ListedSelection(nodes: Nodes, anchor: Address, existing: set<Address>)
    requires VisitAll(GraphOfNodes(nodes), [anchor], {}, [], true).Done?
    ensures Selected(nodes, [anchor], true).Success? && Distinct(Listed(nodes, anchor))
    ensures Restricted(Omitting(nodes, existing), Listed(nodes, anchor))
         == Omitting(Selected(nodes, [anchor], true).value, existing)
  {
    ListedRotatesOrder(nodes, anchor);
    SameElementsRestrict(nodes, existing, Listed(nodes, anchor), Order(nodes, anchor));
  }

  lemma SameElementsRestrict(nodes: Nodes, existing: set<Address>, a: seq<Address>, b: seq<Address>)
    requires forall x :: x in a <==> x in b
    ensures Restricted(Omitting(nodes, existing), a) == Omitting(Restricted(nodes, b), existing)
  {
  }

  /** Importing a compiled proof gives the anchor's closure without the omitted snapshots. */
  lemma CompileThenImport(H: Hasher, nodes: Nodes, anchor: Address, targets: seq<Address>, existing: set<Address>)
    requires Compiles(H, nodes, anchor, targets, existing)
    ensures Selected(nodes, [anchor], true).Success?
    ensures Imported(H, CompiledProof(nodes, anchor, targets, existing).value)
         == Some(Omitting(Selected(nodes, [anchor], true).value, existing + {anchor}))
  {
    var proof, kept := CompiledProof(nodes, anchor, targets, existing).value, Omitting(nodes, existing + {anchor});
    CompiledEntries(H, nodes, anchor, targets, existing);
    ListedSelection(nodes, anchor, existing + {anchor});
    var listed := Listed(nodes, anchor);
    OmittingValid(H, nodes, existing + {anchor}, listed);
    forall i | 0 <= i < |proof|
      ensures ImportsTo(H, kept, listed, listed[i], proof[i])
    {
      CompiledEntryImports(H, nodes, anchor, targets, existing, i);
    }
    AllImport(H, proof, listed, kept);
  }

  /** The round trip is exact if and only if no node of the closure that the proof takes as
      existing stores a snapshot. */
  lemma RoundTripExactlyWhenNothingOmitted(
    H: Hasher, nodes: Nodes, anchor: Address, targets: seq<Address>, existing: set<Address>)
    requires Compiles(H, nodes, anchor, targets, existing)
    ensures Selected(nodes, [anchor], true).Success?
    ensures var selected := Selected(nodes, [anchor], true).value;
            Imported(H, CompiledProof(nodes, anchor, targets, existing).value) == Some(selected)
            <==> forall pda | pda in selected && pda in existing + {anchor} :: selected[pda].snapshot.None?
  {
    CompileThenImport(H, nodes, anchor, targets, existing);
    var selected := Selected(nodes, [anchor], true).value;
    var omitted := Omitting(selected, existing + {anchor});
    if omitted == selected {
      forall pda | pda in selected && pda in existing + {anchor}
        ensures selected[pda].snapshot.None?
      {
        assert omitted[pda] == selected[pda];
      }
    }
  }
}
