/** Compiling an archive into a restore proof: the anchor first, then its whole dependency
    closure in post-order, every fingerprint rebuilt from the dependency nodes. */
module ProofCompiler {
  import opened Outcomes
  import opened Encoding
  import opened Records
  import opened Ledger
  import opened DependencyWalk
  import opened Archives

  function Without(order: seq<Address>, anchor: Address): (r: seq<Address>)
    ensures forall a :: a in r <==> a in order && a != anchor
  {
    if order == [] then []
    else
      var n := |order| - 1;
      Without(order[..n], anchor) + if order[n] == anchor then [] else [order[n]]
  }

  function FingerprintsAt(nodes: Nodes, addresses: seq<Address>): (r: seq<Fingerprint>)
    requires AllPresent(nodes, addresses)
    ensures |r| == |addresses| && forall i | 0 <= i < |r| :: r[i] == nodes[addresses[i]].record.AsFingerprint()
  {
    seq(|addresses|,
        i requires 0 <= i < |addresses| => assert addresses[i] in addresses; nodes[addresses[i]].record.AsFingerprint())
  }

  /** The node is present, its dependencies are known and present. */
  predicate Compilable(nodes: Nodes, pda: Address) {
    && pda in nodes
    && NodeDependencies(nodes[pda]).Some?
    && AllPresent(nodes, NodeDependencies(nodes[pda]).value)
  }

  function CompileEntry(
    nodes: Nodes, pda: Address, targets: set<Address>, existing: set<Address>): Result<Link, ArchiveError>
    requires Compilable(nodes, pda)
  {
    var node := nodes[pda];
    var dependencies := NodeDependencies(node).value;
    match node.record.source
    case Raw => Success(Link(node.record, if pda in targets then Some(RawParams(node.record.hash)) else None))
    case Account(_) =>
      if node.snapshot.None? && pda !in existing then Failure(MissingSnapshot(pda))
      else Success(Link(node.record, Some(AccountParams(if pda in existing then None else node.snapshot))))
    case Branch(_, _, _) =>
      assert dependencies[0] in dependencies;
      Success(Link(node.record, Some(BranchParams(nodes[dependencies[0]].record.AsFingerprint()))))
    case Batch(_) => Success(Link(node.record, Some(BatchParams(FingerprintsAt(nodes, dependencies)))))
    case Pack => Success(Link(node.record, Some(PackParams(FingerprintsAt(nodes, dependencies)))))
  }

  function CompileEntries(nodes: Nodes, pdas: seq<Address>, targets: set<Address>, existing: set<Address>)
    : (r: Result<seq<Link>, ArchiveError>)
    requires forall a | a in pdas :: Compilable(nodes, a)
    ensures r.Success? ==> |r.value| == |pdas|
    ensures r.Success? ==>
              forall i | 0 <= i < |pdas| :: CompileEntry(nodes, pdas[i], targets, existing) == Success(r.value[i])
  {
    if pdas == [] then Success([])
    else
      var n := |pdas| - 1;
      var init := CompileEntries(nodes, pdas[..n], targets, existing);
      if init.Failure? then init
      else
        assert pdas[n] in pdas;
        var last := CompileEntry(nodes, pdas[n], targets, existing);
        if last.Failure? then Failure(last.error) else Success(init.value + [last.value])
  }

  /** Entries fail to compile only for an account that neither has a snapshot nor exists. */
  lemma {:induction false} EntriesCompile(
    nodes: Nodes, pdas: seq<Address>, targets: set<Address>, existing: set<Address>)
    requires forall a | a in pdas :: Compilable(nodes, a)
    ensures CompileEntries(nodes, pdas, targets, existing).Success? <==>
            forall a | a in pdas :: nodes[a].record.source.Account? && nodes[a].snapshot.None? ==> a in existing
    decreases |pdas|
  {
    if pdas != [] {
      var n := |pdas| - 1;
      EntriesCompile(nodes, pdas[..n], targets, existing);
      assert pdas == pdas[..n] + [pdas[n]];
    }
  }

  /** The order of a complete walk holds only compilable nodes. */
  lemma WalkedAreCompilable(nodes: Nodes, anchor: Address)
    ensures var w := VisitAll(GraphOfNodes(nodes), [anchor], {}, [], true);
            w.Done? ==> anchor in w.order && forall a | a in w.order :: Compilable(nodes, a)
  {
    var g := GraphOfNodes(nodes);
    if VisitAll(g, [anchor], {}, [], true).Done? {
      VisitAllSound(g, [anchor], {}, [], true);
      var order := VisitAll(g, [anchor], {}, [], true).order;
      assert anchor in [anchor];
      forall a | a in order
        ensures Compilable(nodes, a)
      {
        assert Known(g, a);
      }
    }
  }

  function CompiledProof(nodes: Nodes, anchor: Address, targets: seq<Address>, existing: set<Address>)
    : Result<seq<Link>, ArchiveError>
  {
    match VisitAll(GraphOfNodes(nodes), [anchor], {}, [], true)
    case Missing(at) => Failure(MissingNode(at))
    case Unknown(at) => Failure(MissingPackMembers(at))
    case Cycle(at) => Failure(CyclicDependencies(at))
    case Done(order) =>
      WalkedAreCompilable(nodes, anchor);
      if !Distinct(targets) then Failure(DuplicateTargets)
      else
        var unreachable := FirstOutside(targets, order);
        if unreachable.Some? then Failure(UnreachableTarget(unreachable.value))
        else CompileEntries(nodes, [anchor] + Without(order, anchor), Elements(targets), existing + {anchor})
  }

  function FirstOutside(targets: seq<Address>, order: seq<Address>): (r: Option<Address>)
    ensures r.None? <==> forall t | t in targets :: t in order
  {
    if targets == [] then None
    else if targets[0] !in order then Some(targets[0])
    else FirstOutside(targets[1..], order)
  }

  method BuildRestoreProof(H: Hasher, archive: Archive, anchor: Address, targets: seq<Address>, existing: set<Address>)
    returns (r: Result<seq<Link>, ArchiveError>)
    ensures ValidArchive(H, archive) ==> r == CompiledProof(archive.nodes, anchor, targets, existing)
    ensures !ValidArchive(H, archive) ==> r.Failure?
  {
    var parsed := ParseArchive(H, archive);
    if parsed.Failure? {
      return Failure(parsed.error);
    }
    var w := StackWalk.DependencyOrder(GraphOfNodes(archive.nodes), [anchor], true);
    match w {
      case Missing(at) => return Failure(MissingNode(at));
      case Unknown(at) => return Failure(MissingPackMembers(at));
      case Cycle(at) => return Failure(CyclicDependencies(at));
      case Done(order) =>
        WalkedAreCompilable(archive.nodes, anchor);
        if !Distinct(targets) {
          return Failure(DuplicateTargets);
        }
        for i := 0 to |targets|
          invariant FirstOutside(targets, order) == FirstOutside(targets[i..], order)
        {
          if targets[i] !in order {
            return Failure(UnreachableTarget(targets[i]));
          }
        }
        r := CompileEntries(archive.nodes, [anchor] + Without(order, anchor), Elements(targets), existing + {anchor});
    }
  }
}
