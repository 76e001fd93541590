/** Compiling one restore step: a complete proof, the account pairs it needs, and which of
    them may be written. */
module Candidates {
  import opened Outcomes
  import opened Encoding
  import opened Records
  import opened Ledger
  import opened DependencyWalk
  import opened Archives
  import opened ProofCompiler
  import opened Restoring

  /** What the planner knows: its options, and the live records it read (`None` when absent). */
  datatype Context = Context(
    targets: seq<Address>, create: bool, payer: Key,
    live: map<Address, Option<Record>>, readErrors: set<Address>)

  /** Serialized size of a restore transaction; `None` when it does not fit. */
  type Wire = (Address, seq<Link>, seq<Meta>) -> Option<nat>

  datatype PlanStep = PlanStep(
    anchor: Address, targets: seq<Address>, proof: seq<Link>, requested: seq<Address>,
    creations: seq<Address>, additional: seq<Address>, metas: seq<Meta>, bytes: nat)

  datatype PlanError =
    | Uncompilable(error: ArchiveError)
    | ReadFailed(at: Address)
    | IncarnationConflict(at: Address)
    | TransactionTooLarge
    | DuplicateOrNoTargets
    | UnknownTarget(at: Address)
    | Uncovered(targets: set<Address>)

  function LiveAt(context: Context, pda: Address): Option<Record> {
    if pda in context.live then context.live[pda] else None
  }

  predicate Matches(nodes: Nodes, context: Context, pda: Address) {
    pda in nodes && LiveAt(context, pda) == Some(nodes[pda].record)
  }

  function Filter(f: Address -> bool, pdas: seq<Address>): (r: seq<Address>)
    ensures forall a :: a in r <==> a in pdas && f(a)
    ensures Distinct(pdas) ==> Distinct(r)
    ensures |r| <= |pdas|
  {
    if pdas == [] then []
    else
      var n := |pdas| - 1;
      Filter(f, pdas[..n]) + if f(pdas[n]) then [pdas[n]] else []
  }

  /** Identities the proof asks to materialize: every parametric entry but the anchor. */
  function RequestedIds(H: Hasher, proof: seq<Link>): (r: seq<Digest>)
  {
    if |proof| <= 1 then []
    else
      var n := |proof| - 1;
      RequestedIds(H, proof[..n]) + if proof[n].params.Some? then [proof[n].record.Id(H)] else []
  }

  function PairMetas(payer: Key, ids: seq<Digest>, writable: seq<Address>): (r: seq<Meta>)
    ensures |r| == 2 * |ids|
  {
    if ids == [] then []
    else
      var n := |ids| - 1;
      var mayWrite := HashPda(ids[n]) in writable;
      PairMetas(payer, ids[..n], writable) + [Meta(HashPda(ids[n]), mayWrite), Meta(VotePda(payer, ids[n]), mayWrite)]
  }

  /** The first requested record that could not be read or has another live history. */
  function RequestProblem(nodes: Nodes, context: Context, requested: seq<Address>): (r: Option<PlanError>)
    ensures r.None? <==> forall pda | pda in requested ::
                           pda !in context.readErrors && (LiveAt(context, pda).None? || Matches(nodes, context, pda))
  {
    if requested == [] then None
    else
      var n := |requested| - 1;
      var before := RequestProblem(nodes, context, requested[..n]);
      if before.Some? then before
      else if requested[n] in context.readErrors then Some(ReadFailed(requested[n]))
      else if LiveAt(context, requested[n]).Some? && !Matches(nodes, context, requested[n]) then
        Some(IncarnationConflict(requested[n]))
      else None
  }

  function CompileCandidate(
    H: Hasher, nodes: Nodes, context: Context, wire: Wire, anchor: Address, closure: seq<Address>,
    selected: seq<Address>)
    : Result<PlanStep, PlanError>
  {
    var existing := if context.create then Elements(Filter(pda => Matches(nodes, context, pda), closure)) else {anchor};
    match CompiledProof(nodes, anchor, selected, existing)
    case Failure(e) => Failure(Uncompilable(e))
    case Success(proof) =>
      var ids := if context.create then RequestedIds(H, proof) else [];
      var requested := AddressesOf(ids);
      var problem := RequestProblem(nodes, context, requested);
      if problem.Some? then Failure(problem.value)
      else
        var creations := Filter(pda => !Matches(nodes, context, pda), requested);
        var metas := PairMetas(context.payer, ids, creations);
        var bytes := wire(anchor, proof, metas);
        if bytes.None? then Failure(TransactionTooLarge)
        else Success(PlanStep(anchor, selected, proof, requested, creations,
                              Filter(pda => pda !in context.targets, creations), metas, bytes.value))
  }

  // ----- Candidates of an archive

  /** Everything a proof from `anchor` must contain, when the archive has all of it. */
  function Closure(nodes: Nodes, anchor: Address): Option<seq<Address>> {
    match VisitAll(GraphOfNodes(nodes), [anchor], {}, [], true)
    case Done(order) => Some(order)
    case _ => None
  }

  predicate LiveAnchor(nodes: Nodes, context: Context, anchor: Address) {
    anchor !in context.readErrors && Matches(nodes, context, anchor)
  }

  /** What compiling a selection from `anchor` gives. */
  ghost function CandidateAt(
    H: Hasher, nodes: Nodes, context: Context, wire: Wire, anchor: Address, selected: seq<Address>): Option<PlanStep>
  {
    if !LiveAnchor(nodes, context, anchor) || Closure(nodes, anchor).None? then None
    else
      var candidate := CompileCandidate(H, nodes, context, wire, anchor, Closure(nodes, anchor).value, selected);
      if candidate.Success? then Some(candidate.value) else None
  }

  /** The step is what its own live anchor and targets compile to. */
  ghost predicate IsCandidate(H: Hasher, nodes: Nodes, context: Context, wire: Wire, step: PlanStep) {
    step.targets != [] && CandidateAt(H, nodes, context, wire, step.anchor, step.targets) == Some(step)
  }

  /** Some proof from `anchor` reaches `target` and compiles for it alone. */
  ghost predicate Restorable(H: Hasher, nodes: Nodes, context: Context, wire: Wire, anchor: Address, target: Address) {
    && Closure(nodes, anchor).Some? && target in Closure(nodes, anchor).value
    && CandidateAt(H, nodes, context, wire, anchor, [target]).Some?
  }
}
