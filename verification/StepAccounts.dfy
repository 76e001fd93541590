/** The accounts of a planned step: which proof entries they bind on chain, and that nothing
    outside the step's expected creations can be created, whatever the chain holds by then. */
module StepAccounts {
  import opened Outcomes
  import opened Encoding
  import opened Records
  import opened Ledger
  import opened DependencyWalk
  import opened ProofGraph
  import opened Restoring
  import opened RestoreEffects
  import opened Archives
  import opened ProofCompiler
  import opened CompilerCorrectness
  import opened Candidates

  ghost function IdsFor(H: Hasher, context: Context, step: PlanStep): seq<Digest> {
    if context.create then RequestedIds(H, step.proof) else []
  }

  /** The accounts a step's proof was compiled to take as existing. */
  ghost predicate CompiledWith(nodes: Nodes, context: Context, step: PlanStep, existing: set<Address>) {
    && CompiledProof(nodes, step.anchor, step.targets, existing) == Success(step.proof)
    && forall pda | pda in existing :: pda == step.anchor || (context.create && Matches(nodes, context, pda))
  }

  /** What compiling a step establishes. */
  lemma CandidateFacts(H: Hasher, nodes: Nodes, context: Context, wire: Wire, step: PlanStep)
    requires IsCandidate(H, nodes, context, wire, step)
    ensures LiveAnchor(nodes, context, step.anchor) && Closure(nodes, step.anchor).Some?
    ensures exists existing :: CompiledWith(nodes, context, step, existing)
    ensures step.requested == AddressesOf(IdsFor(H, context, step))
    ensures step.metas == PairMetas(context.payer, IdsFor(H, context, step), step.creations)
    ensures forall pda :: pda in step.creations <==> pda in step.requested && !Matches(nodes, context, pda)
    ensures forall pda :: pda in step.additional <==> pda in step.creations && pda !in context.targets
    ensures forall pda | pda in step.requested ::
              pda !in context.readErrors && (LiveAt(context, pda).None? || Matches(nodes, context, pda))
  {
    var existing :=
      if context.create then Elements(Filter(pda => Matches(nodes, context, pda), Closure(nodes, step.anchor).value))
      else {step.anchor};
    assert CompiledWith(nodes, context, step, existing);
  }

  // ----- When a selection compiles

  /** Read as live in the archived incarnation. */
  ghost predicate ReadAsArchived(nodes: Nodes, context: Context, a: Address) {
    a in nodes && a in context.live && context.live[a] == Some(nodes[a].record)
  }

  ghost predicate ReadAsAbsent(context: Context, a: Address) {
    a in context.live ==> context.live[a].None?
  }

  /** What a proof from `anchor` takes as existing: what it reaches that is live as archived, or
      without permission to create only the anchor. */
  ghost function TakenAsExisting(nodes: Nodes, context: Context, anchor: Address): set<Address> {
    if context.create
    then set a | a in nodes && Reaches(GraphOfNodes(nodes), anchor, a) && ReadAsArchived(nodes, context, a)
    else {anchor}
  }

  ghost predicate RequestsAllowed(H: Hasher, nodes: Nodes, context: Context, proof: seq<Link>) {
    context.create ==>
      forall i | i in Eligible(proof) :: RequestAllowed(nodes, context, HashPda(proof[i].record.Id(H)))
  }

  ghost predicate RequestAllowed(nodes: Nodes, context: Context, a: Address) {
    a !in context.readErrors && (ReadAsAbsent(context, a) || ReadAsArchived(nodes, context, a))
  }

  /** The account pairs of a proof's requests, writable where a creation is expected. */
  ghost function MetasFor(H: Hasher, nodes: Nodes, context: Context, proof: seq<Link>): seq<Meta> {
    var ids := if context.create then RequestedIds(H, proof) else [];
    PairMetas(context.payer, ids, Filter(a => !Matches(nodes, context, a), AddressesOf(ids)))
  }

  lemma ClosureTaken(nodes: Nodes, context: Context, anchor: Address)
    requires Closure(nodes, anchor).Some? && context.create
    ensures Elements(Filter(pda => Matches(nodes, context, pda), Closure(nodes, anchor).value))
         == TakenAsExisting(nodes, context, anchor)
  {
    var g, closure := GraphOfNodes(nodes), Closure(nodes, anchor).value;
    WalkCorrect(g, [anchor], true);
    forall a
      ensures a in closure <==> a in nodes && Reaches(g, anchor, a)
    {
      assert anchor in [anchor];
    }
    forall a
      ensures a in Elements(Filter(pda => Matches(nodes, context, pda), closure)) <==>
              a in TakenAsExisting(nodes, context, anchor)
    {
    }
  }

  lemma RequestedAddresses(H: Hasher, proof: seq<Link>, a: Address)
    ensures a in AddressesOf(RequestedIds(H, proof)) <==>
            exists i :: i in Eligible(proof) && HashPda(proof[i].record.Id(H)) == a
  {
    var ids := RequestedIds(H, proof);
    if a in AddressesOf(ids) {
      var k :| 0 <= k < |ids| && HashPda(ids[k]) == a;
      RequestedMembers(H, proof, ids[k]);
    }
    if i :| i in Eligible(proof) && HashPda(proof[i].record.Id(H)) == a {
      RequestedMembers(H, proof, proof[i].record.Id(H));
      var k :| 0 <= k < |ids| && ids[k] == proof[i].record.Id(H);
      assert AddressesOf(ids)[k] == a;
    }
  }

  lemma RequestsOutcome(H: Hasher, nodes: Nodes, context: Context, proof: seq<Link>)
    requires context.create
    ensures RequestProblem(nodes, context, AddressesOf(RequestedIds(H, proof))).None? <==>
            RequestsAllowed(H, nodes, context, proof)
  {
    var requested := AddressesOf(RequestedIds(H, proof));
    if RequestsAllowed(H, nodes, context, proof) {
      forall a | a in requested
        ensures RequestAllowed(nodes, context, a)
      {
        RequestedAddresses(H, proof, a);
      }
    }
    if RequestProblem(nodes, context, requested).None? {
      forall i | i in Eligible(proof)
        ensures RequestAllowed(nodes, context, HashPda(proof[i].record.Id(H)))
      {
        RequestedAddresses(H, proof, HashPda(proof[i].record.Id(H)));
      }
    }
  }

  /** A selection is a candidate exactly when its anchor was read as live, its proof compiles, every
      request was read as absent or as archived, and the transaction fits. */
  lemma CandidateExactly(
    H: Hasher, nodes: Nodes, context: Context, wire: Wire, anchor: Address, selected: seq<Address>)
    ensures var compiled := CompiledProof(nodes, anchor, selected, TakenAsExisting(nodes, context, anchor));
            CandidateAt(H, nodes, context, wire, anchor, selected).Some? <==>
            && anchor !in context.readErrors && ReadAsArchived(nodes, context, anchor)
            && compiled.Success? && RequestsAllowed(H, nodes, context, compiled.value)
            && wire(anchor, compiled.value, MetasFor(H, nodes, context, compiled.value)).Some?
    ensures CandidateAt(H, nodes, context, wire, anchor, selected).Some? ==>
              var step := CandidateAt(H, nodes, context, wire, anchor, selected).value;
              && step.anchor == anchor && step.targets == selected
              && CompiledProof(nodes, anchor, selected, TakenAsExisting(nodes, context, anchor)) == Success(step.proof)
              && step.metas == MetasFor(H, nodes, context, step.proof)
              && wire(anchor, step.proof, step.metas) == Some(step.bytes)
  {
    CompilesExactly(nodes, anchor, selected, TakenAsExisting(nodes, context, anchor));
    WalkCorrect(GraphOfNodes(nodes), [anchor], true);
    if Closure(nodes, anchor).Some? {
      if context.create {
        ClosureTaken(nodes, context, anchor);
        var compiled := CompiledProof(nodes, anchor, selected, TakenAsExisting(nodes, context, anchor));
        if compiled.Success? {
          RequestsOutcome(H, nodes, context, compiled.value);
        }
      }
    }
  }

  // ----- Binding

  ghost predicate Requests(H: Hasher, proof: seq<Link>, id: Digest) {
    exists i :: i in Eligible(proof) && proof[i].record.Id(H) == id
  }

  lemma RequestsPrefix(H: Hasher, proof: seq<Link>, id: Digest)
    requires |proof| > 1
    ensures var n := |proof| - 1;
            Requests(H, proof, id)
            <==> Requests(H, proof[..n], id) || (n in Eligible(proof) && proof[n].record.Id(H) == id)
  {
    var n := |proof| - 1;
    var init := proof[..n];
    if i :| i in Eligible(proof) && proof[i].record.Id(H) == id {
      assert i < n ==> i in Eligible(init) && init[i] == proof[i];
    }
    if i :| i in Eligible(init) && init[i].record.Id(H) == id {
      assert i in Eligible(proof) && proof[i] == init[i];
    }
  }

  lemma {:induction false} RequestedMembers(H: Hasher, proof: seq<Link>, id: Digest)
    ensures id in RequestedIds(H, proof) <==> Requests(H, proof, id)
    decreases |proof|
  {
    if |proof| > 1 {
      RequestedMembers(H, proof[..|proof| - 1], id);
      RequestsPrefix(H, proof, id);
    }
  }

  lemma {:induction false} RequestedDistinct(H: Hasher, proof: seq<Link>)
    requires Distinct(ProofIds(H, proof))
    ensures Distinct(RequestedIds(H, proof))
    decreases |proof|
  {
    if |proof| > 1 {
      var n := |proof| - 1;
      var init, last := proof[..n], proof[n].record.Id(H);
      assert ProofIds(H, init) == ProofIds(H, proof)[..n];
      RequestedDistinct(H, init);
      RequestedMembers(H, init, last);
      forall i | i in Eligible(init)
        ensures init[i].record.Id(H) != last
      {
        DistinctIds(H, proof, i, n);
      }
    }
  }

  /** The requested identities are those of the parametric entries but the first, each once. */
  lemma RequestedExact(H: Hasher, proof: seq<Link>)
    requires Distinct(ProofIds(H, proof))
    ensures Distinct(RequestedIds(H, proof))
    ensures forall id :: id in RequestedIds(H, proof) <==> Requests(H, proof, id)
  {
    RequestedDistinct(H, proof);
    forall id
      ensures id in RequestedIds(H, proof) <==> Requests(H, proof, id)
    {
      RequestedMembers(H, proof, id);
    }
  }

  ghost function PairAt(H: Hasher, payer: Key, link: Link, writable: seq<Address>): Pair {
    var id := link.record.Id(H);
    Pair(Meta(HashPda(id), HashPda(id) in writable), Meta(VotePda(payer, id), HashPda(id) in writable))
  }

  /** The pairs bound are exactly those of the entries with these identities. */
  ghost predicate ExactlyBound(
    H: Hasher, payer: Key, proof: seq<Link>, bound: Pairs, ids: seq<Digest>, writable: seq<Address>) {
    && (forall i: nat :: i in bound <==> i in Eligible(proof) && proof[i].record.Id(H) in ids)
    && (forall i | i in bound :: bound[i] == PairAt(H, payer, proof[i], writable))
  }

  lemma BoundOneMore(
    H: Hasher, payer: Key, proof: seq<Link>, bound: Pairs, ids: seq<Digest>, writable: seq<Address>, i: nat)
    requires Distinct(ProofIds(H, proof)) && ExactlyBound(H, payer, proof, bound, ids, writable)
    requires i in Eligible(proof) && proof[i].record.Id(H) !in ids
    ensures var id, pair := proof[i].record.Id(H), PairAt(H, payer, proof[i], writable);
            && BindOne(H, payer, proof, bound, pair) == Success(bound[i := pair])
            && ExactlyBound(H, payer, proof, bound[i := pair], ids + [id], writable)
  {
    var id, pair := proof[i].record.Id(H), PairAt(H, payer, proof[i], writable);
    assert ProofIds(H, proof)[i] == id;
    assert IndexOf(ProofIds(H, proof), id) == i;
    forall j: nat
      ensures j in bound[i := pair] <==> j in Eligible(proof) && proof[j].record.Id(H) in ids + [id]
    {
      if j in Eligible(proof) && j != i {
        DistinctIds(H, proof, i, j);
      }
    }
  }

  lemma LastPair(payer: Key, ids: seq<Digest>, writable: seq<Address>)
    requires ids != []
    ensures var metas, n := PairMetas(payer, ids, writable), |ids| - 1;
            && metas[..2 * n] == PairMetas(payer, ids[..n], writable)
            && metas[2 * n] == Meta(HashPda(ids[n]), HashPda(ids[n]) in writable)
            && metas[2 * n + 1] == Meta(VotePda(payer, ids[n]), HashPda(ids[n]) in writable)
  {
  }

  lemma {:induction false} PairsBind(H: Hasher, payer: Key, proof: seq<Link>, ids: seq<Digest>, writable: seq<Address>)
    requires Distinct(ProofIds(H, proof)) && Distinct(ids)
    requires forall k | 0 <= k < |ids| :: Requests(H, proof, ids[k])
    ensures BindAll(H, payer, proof, PairMetas(payer, ids, writable)).Success?
    ensures ExactlyBound(H, payer, proof, BindAll(H, payer, proof, PairMetas(payer, ids, writable)).value, ids,
                         writable)
    decreases |ids|
  {
    if ids != [] {
      var n := |ids| - 1;
      PairsBind(H, payer, proof, ids[..n], writable);
      var i :| i in Eligible(proof) && proof[i].record.Id(H) == ids[n];
      BoundOneMore(H, payer, proof, BindAll(H, payer, proof, PairMetas(payer, ids[..n], writable)).value, ids[..n],
                   writable, i);
      assert ids[..n] + [ids[n]] == ids;
      LastPair(payer, ids, writable);
      assert PairMetas(payer, ids, writable)[2 * n] == PairAt(H, payer, proof[i], writable).hash;
    }
  }

  lemma EligibleAllBound(H: Hasher, payer: Key, proof: seq<Link>, bound: Pairs, writable: seq<Address>)
    requires Distinct(ProofIds(H, proof)) && ExactlyBound(H, payer, proof, bound, RequestedIds(H, proof), writable)
    ensures bound.Keys == Eligible(proof)
    ensures forall i | i in Eligible(proof) :: bound[i] == PairAt(H, payer, proof[i], writable)
  {
    RequestedExact(H, proof);
    forall i | i in Eligible(proof)
      ensures i in bound
    {
      assert Requests(H, proof, proof[i].record.Id(H));
    }
  }

  lemma AllBoundSucceeds(H: Hasher, payer: Key, proof: seq<Link>, remaining: seq<Meta>, bound: Pairs)
    requires proof != [] && Distinct(ProofIds(H, proof)) && |remaining| % 2 == 0
    requires BindAll(H, payer, proof, remaining) == Success(bound) && bound.Keys == Eligible(proof)
    ensures Bind(H, payer, proof, remaining) == Success(bound)
  {
    assert |bound| == |bound.Keys|;
  }

  lemma RequestedBind(H: Hasher, payer: Key, proof: seq<Link>, writable: seq<Address>) returns (bound: Pairs)
    requires proof != [] && Distinct(ProofIds(H, proof))
    ensures Bind(H, payer, proof, PairMetas(payer, RequestedIds(H, proof), writable)) == Success(bound)
    ensures bound.Keys == Eligible(proof)
    ensures forall i | i in Eligible(proof) :: bound[i] == PairAt(H, payer, proof[i], writable)
  {
    var metas := PairMetas(payer, RequestedIds(H, proof), writable);
    RequestedExact(H, proof);
    PairsBind(H, payer, proof, RequestedIds(H, proof), writable);
    bound := BindAll(H, payer, proof, metas).value;
    EligibleAllBound(H, payer, proof, bound, writable);
    AllBoundSucceeds(H, payer, proof, metas, bound);
  }

  /** Binding the step's accounts gives every parametric entry but the anchor its own pair,
      writable exactly where a creation is expected. */
  ghost predicate BoundForStep(H: Hasher, context: Context, step: PlanStep, bound: Pairs) {
    && bound.Keys == (if context.create then Eligible(step.proof) else {})
    && forall i | i in bound :: i < |step.proof| && bound[i] == PairAt(H, context.payer, step.proof[i], step.creations)
  }

  lemma StepBinds(H: Hasher, nodes: Nodes, context: Context, wire: Wire, step: PlanStep)
    requires IsCandidate(H, nodes, context, wire, step)
    requires step.proof != [] && Distinct(ProofIds(H, step.proof))
    ensures Bind(H, context.payer, step.proof, step.metas).Success?
    ensures BoundForStep(H, context, step, Bind(H, context.payer, step.proof, step.metas).value)
  {
    CandidateFacts(H, nodes, context, wire, step);
    if context.create {
      var bound := RequestedBind(H, context.payer, step.proof, step.creations);
    }
  }

  // ----- Nothing unplanned is created

  ghost function Executed(
    H: Hasher, m: Accounts, env: Env, payer: Key, step: PlanStep): Result<Accounts, Errors.Error>
  {
    Restore(H, m, env, payer, step.anchor, step.proof, step.metas)
  }

  lemma OnlyWritableIsMissing(H: Hasher, m: Accounts, payer: Key, link: Link, pair: Pair)
    requires ValidatePair(H, m, payer, link, pair).Success? && At(m, pair.hash.address).owner != Program
    ensures pair.hash.writable
  {
  }

  lemma CreatedIsExpected(
    H: Hasher, context: Context, step: PlanStep, m: Accounts, bound: Pairs, i: nat)
    requires BoundForStep(H, context, step, bound) && i in bound
    requires At(m, HashPda(step.proof[i].record.Id(H))).owner != Program
    requires ValidatePair(H, m, context.payer, step.proof[i], bound[i]).Success?
    ensures HashPda(step.proof[i].record.Id(H)) in step.creations
  {
    OnlyWritableIsMissing(H, m, context.payer, step.proof[i], bound[i]);
  }

  lemma AllCreatedAreExpected(H: Hasher, nodes: Nodes, context: Context, wire: Wire, step: PlanStep, m: Accounts)
    requires IsCandidate(H, nodes, context, wire, step)
    requires Bind(H, context.payer, step.proof, step.metas).Success? && Parse(H, step.proof).Success?
    requires var bound := Bind(H, context.payer, step.proof, step.metas).value;
             Existing(H, m, context.payer, step.proof, bound, |step.proof|).Success?
    ensures forall i | i in Created(H, m, context.payer, step.proof, step.metas) ::
              i < |step.proof| && HashPda(step.proof[i].record.Id(H)) in step.creations
  {
    var bound := Bind(H, context.payer, step.proof, step.metas).value;
    CreatedExactly(H, m, context.payer, step.proof, step.metas);
    StepBinds(H, nodes, context, wire, step);
    ExistingExact(H, m, context.payer, step.proof, bound, |step.proof|);
    forall i | i in Created(H, m, context.payer, step.proof, step.metas)
      ensures i < |step.proof| && HashPda(step.proof[i].record.Id(H)) in step.creations
    {
      assert i in Eligible(step.proof);
      CreatedIsExpected(H, context, step, m, bound, i);
    }
  }

  /** The payer's wallet, an allowed record, or the payer's vote for one. */
  predicate MayChange(a: Address, payer: Key, allowed: set<Address>) {
    match a
    case Wallet(key) => key == payer
    case HashPda(id) => a in allowed
    case VotePda(voter, id) => voter == payer && HashPda(id) in allowed
  }

  ghost predicate ChangedOnlyFor(m: Accounts, m': Accounts, payer: Key, allowed: set<Address>) {
    forall a :: At(m', a) != At(m, a) ==> MayChange(a, payer, allowed)
  }

  lemma TouchedMayChange(H: Hasher, payer: Key, proof: seq<Link>, indices: seq<nat>, allowed: set<Address>, a: Address)
    requires forall k | 0 <= k < |indices| :: indices[k] < |proof| && HashPda(proof[indices[k]].record.Id(H)) in allowed
    requires a in Touched(H, payer, proof, indices)
    ensures MayChange(a, payer, allowed)
  {
    if a.Wallet? {
      TouchedWallets(H, payer, proof, indices, a.key);
    } else {
      TouchedAreTheirs(H, payer, proof, indices, a.id);
      var k :| 0 <= k < |indices| && proof[indices[k]].record.Id(H) == a.id;
    }
  }

  lemma AllowMore(m: Accounts, m': Accounts, payer: Key, allowed: set<Address>, more: set<Address>)
    requires ChangedOnlyFor(m, m', payer, allowed) && allowed <= more
    ensures ChangedOnlyFor(m, m', payer, more)
  {
    forall a | At(m', a) != At(m, a)
      ensures MayChange(a, payer, more)
    {
      assert MayChange(a, payer, allowed);
    }
  }

  lemma ChangedOnlyExpected(
    H: Hasher, nodes: Nodes, context: Context, wire: Wire, step: PlanStep, m: Accounts, env: Env)
    requires IsCandidate(H, nodes, context, wire, step) && Executed(H, m, env, context.payer, step).Success?
    ensures ChangedOnlyFor(m, Executed(H, m, env, context.payer, step).value, context.payer, Elements(step.creations))
  {
    var created := Created(H, m, context.payer, step.proof, step.metas);
    AllCreatedAreExpected(H, nodes, context, wire, step, m);
    RestoreIsExact(H, m, env, context.payer, step.anchor, step.proof, step.metas);
    forall a | At(Executed(H, m, env, context.payer, step).value, a) != At(m, a)
      ensures MayChange(a, context.payer, Elements(step.creations))
    {
      assert forall k | 0 <= k < |created| :: created[k] in created;
      TouchedMayChange(H, context.payer, step.proof, created, Elements(step.creations), a);
    }
  }

  /** Whatever the chain holds when a step executes, it creates only the records it announced,
      and with no additional records only targets. */
  lemma StepCreatesOnlyExpected(
    H: Hasher, nodes: Nodes, context: Context, wire: Wire, step: PlanStep, m: Accounts, env: Env)
    requires IsCandidate(H, nodes, context, wire, step) && Executed(H, m, env, context.payer, step).Success?
    ensures var m' := Executed(H, m, env, context.payer, step).value;
            && ChangedOnlyFor(m, m', context.payer, Elements(step.creations))
            && (step.additional == [] ==> ChangedOnlyFor(m, m', context.payer, Elements(context.targets)))
  {
    ChangedOnlyExpected(H, nodes, context, wire, step, m, env);
    if step.additional == [] {
      OnlyTargets(H, nodes, context, wire, step);
      AllowMore(m, Executed(H, m, env, context.payer, step).value, context.payer, Elements(step.creations),
                Elements(context.targets));
    }
  }

  lemma OnlyTargets(H: Hasher, nodes: Nodes, context: Context, wire: Wire, step: PlanStep)
    requires IsCandidate(H, nodes, context, wire, step) && step.additional == []
    ensures Elements(step.creations) <= Elements(context.targets)
  {
    CandidateFacts(H, nodes, context, wire, step);
    forall a | a in step.creations
      ensures a in context.targets
    {
      assert a !in step.additional;
    }
  }

  lemma {:induction false} TouchedWallets(H: Hasher, payer: Key, proof: seq<Link>, indices: seq<nat>, key: Key)
    requires forall k | 0 <= k < |indices| :: indices[k] < |proof|
    ensures Wallet(key) in Touched(H, payer, proof, indices) ==> key == payer
    decreases |indices|
  {
    if indices != [] {
      TouchedWallets(H, payer, proof, indices[..|indices| - 1], key);
    }
  }
}
