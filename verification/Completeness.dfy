/** The converse of "no invented history": whatever an archive knows behind a live anchor can be
    brought back, unless another incarnation of a derived record is in the way. */
module Completeness {
  import opened Outcomes
  import opened Encoding
  import opened Records
  import opened Ledger
  import opened LedgerInvariant
  import opened ProofGraph
  import opened Justification
  import opened AnchorBinding
  import opened Restoring
  import opened RestoreEffects
  import opened Instructions
  import opened Runs
  import opened Provenance
  import opened Archives
  import opened ProofCompiler
  import opened CompilerCorrectness
  import opened Candidates
  import opened StepAccounts
  import opened Funding
  import opened PlanExecution

  // ----- What must be known, and what must not be in the way

  /** Nothing stops this ancestor: it is the anchor, or a raw leaf that only the proof lists, or
      absent, or live as archived. */
  ghost predicate Unobstructed(m: Accounts, nodes: Nodes, anchor: Address, target: Address, pda: Address)
    requires pda in nodes
  {
    pda == anchor || (nodes[pda].record.source.Raw? && pda != target) || Allowed(m, nodes[pda].record, pda)
  }

  /** An absent account record can only be proved with its snapshot. */
  ghost predicate Provable(m: Accounts, nodes: Nodes, anchor: Address, pda: Address)
    requires pda in nodes
  {
    nodes[pda].record.source.Account? && nodes[pda].snapshot.None? ==>
      pda == anchor || LiveRecordAt(m, pda) == Some(nodes[pda].record)
  }

  /** The anchor is live as archived, its whole history is known and nothing is in the way. */
  ghost predicate Recoverable(H: Hasher, m: Accounts, nodes: Nodes, anchor: Address, target: Address) {
    && ValidNodes(H, nodes) && Consistent(H, m)
    && Closure(nodes, anchor).Some? && target in Closure(nodes, anchor).value
    && anchor in nodes && LiveRecordAt(m, anchor) == Some(nodes[anchor].record)
    && forall pda | pda in Closure(nodes, anchor).value ::
         pda in nodes && Unobstructed(m, nodes, anchor, target, pda) && Provable(m, nodes, anchor, pda)
  }

  ghost function AbsentIn(m: Accounts, pdas: seq<Address>): set<Address> {
    set pda | pda in pdas && LiveRecordAt(m, pda).None?
  }

  // ----- Sufficient: planning for one target from what the ledger holds

  ghost function Asking(m: Accounts, nodes: Nodes, payer: Key, target: Address): Context {
    Context([target], true, payer, map pda | pda in nodes :: LiveRecordAt(m, pda), {})
  }

  ghost function AnySize(): Wire {
    (anchor, proof, metas) => Some(0)
  }

  ghost function LiveNow(m: Accounts, nodes: Nodes, payer: Key, anchor: Address, target: Address): set<Address>
    requires Closure(nodes, anchor).Some?
  {
    Elements(Filter(pda => Matches(nodes, Asking(m, nodes, payer, target), pda), Closure(nodes, anchor).value))
  }

  /** Whatever lies in a complete closure compiles, once its accounts exist or have snapshots. */
  lemma ClosureCompiles(nodes: Nodes, anchor: Address, targets: seq<Address>, existing: set<Address>)
    requires Closure(nodes, anchor).Some? && Distinct(targets)
    requires forall t | t in targets :: t in Closure(nodes, anchor).value
    requires forall a | a in Closure(nodes, anchor).value && a in nodes ::
               nodes[a].record.source.Account? && nodes[a].snapshot.None? ==> a == anchor || a in existing
    ensures CompiledProof(nodes, anchor, targets, existing).Success?
  {
    WalkedAreCompilable(nodes, anchor);
    EntriesCompile(nodes, [anchor] + Without(Closure(nodes, anchor).value, anchor), Elements(targets),
                   existing + {anchor});
  }

  lemma ProofCompiles(H: Hasher, m: Accounts, nodes: Nodes, payer: Key, anchor: Address, target: Address)
    requires Recoverable(H, m, nodes, anchor, target)
    ensures Compiles(H, nodes, anchor, [target], LiveNow(m, nodes, payer, anchor, target))
  {
    var closure, existing := Closure(nodes, anchor).value, LiveNow(m, nodes, payer, anchor, target);
    forall a | a in closure && a in nodes && nodes[a].record.source.Account? && nodes[a].snapshot.None?
      ensures a == anchor || a in existing
    {
      assert Provable(m, nodes, anchor, a);
    }
    ClosureCompiles(nodes, anchor, [target], existing);
  }

  /** Each requested record lies behind the anchor and is absent or live as archived. */
  lemma RequestedAreAllowed(H: Hasher, m: Accounts, nodes: Nodes, payer: Key, anchor: Address, target: Address, i: nat)
    requires Recoverable(H, m, nodes, anchor, target)
    requires var existing := LiveNow(m, nodes, payer, anchor, target);
             && Compiles(H, nodes, anchor, [target], existing)
             && i in Eligible(CompiledProof(nodes, anchor, [target], existing).value)
    ensures var link := CompiledProof(nodes, anchor, [target], LiveNow(m, nodes, payer, anchor, target)).value[i];
            var pda := HashPda(link.record.Id(H));
            pda in Closure(nodes, anchor).value && pda in nodes && Allowed(m, nodes[pda].record, pda)
  {
    var existing := LiveNow(m, nodes, payer, anchor, target);
    var proof, listed := CompiledProof(nodes, anchor, [target], existing).value, Listed(nodes, anchor);
    CompiledEntries(H, nodes, anchor, [target], existing);
    ListedRotatesOrder(nodes, anchor);
    EntryRecord(H, nodes, listed[i], Elements([target]), existing + {anchor}, proof[i]);
    assert listed[0] == anchor && listed[i] != listed[0];
    assert listed[i] in listed;
    assert Unobstructed(m, nodes, anchor, target, listed[i]);
  }

  lemma AllRequestedAllowed(H: Hasher, m: Accounts, nodes: Nodes, payer: Key, anchor: Address, target: Address)
    requires Recoverable(H, m, nodes, anchor, target)
    requires Compiles(H, nodes, anchor, [target], LiveNow(m, nodes, payer, anchor, target))
    ensures var proof := CompiledProof(nodes, anchor, [target], LiveNow(m, nodes, payer, anchor, target)).value;
            forall pda | pda in AddressesOf(RequestedIds(H, proof)) ::
              pda in Closure(nodes, anchor).value && pda in nodes && Allowed(m, nodes[pda].record, pda)
  {
    var proof := CompiledProof(nodes, anchor, [target], LiveNow(m, nodes, payer, anchor, target)).value;
    CompiledIds(H, nodes, anchor, [target], LiveNow(m, nodes, payer, anchor, target));
    RequestedExact(H, proof);
    var ids := RequestedIds(H, proof);
    forall pda | pda in AddressesOf(ids)
      ensures pda in Closure(nodes, anchor).value && pda in nodes && Allowed(m, nodes[pda].record, pda)
    {
      var k :| 0 <= k < |ids| && HashPda(ids[k]) == pda;
      assert ids[k] in ids;
      var i :| i in Eligible(proof) && proof[i].record.Id(H) == ids[k];
      RequestedAreAllowed(H, m, nodes, payer, anchor, target, i);
    }
  }

  /** A proof whose requests raise no problem is a candidate when any size fits. */
  lemma UnproblematicIsCandidate(H: Hasher, nodes: Nodes, context: Context, anchor: Address, target: Address)
    returns (step: PlanStep)
    requires context.create && LiveAnchor(nodes, context, anchor) && Closure(nodes, anchor).Some?
    requires var existing := Elements(Filter(pda => Matches(nodes, context, pda), Closure(nodes, anchor).value));
             var proof := CompiledProof(nodes, anchor, [target], existing);
             proof.Success? && RequestProblem(nodes, context, AddressesOf(RequestedIds(H, proof.value))).None?
    ensures IsCandidate(H, nodes, context, AnySize(), step) && step.anchor == anchor && step.targets == [target]
    ensures var existing := Elements(Filter(pda => Matches(nodes, context, pda), Closure(nodes, anchor).value));
            step.requested == AddressesOf(RequestedIds(H, CompiledProof(nodes, anchor, [target], existing).value))
  {
    step := CompileCandidate(H, nodes, context, AnySize(), anchor, Closure(nodes, anchor).value, [target]).value;
  }

  lemma CreationsAreAbsent(
    H: Hasher, m: Accounts, nodes: Nodes, payer: Key, anchor: Address, target: Address, step: PlanStep)
    requires IsCandidate(H, nodes, Asking(m, nodes, payer, target), AnySize(), step)
    requires Closure(nodes, anchor).Some?
    requires forall pda | pda in step.requested ::
               pda in Closure(nodes, anchor).value && pda in nodes && Allowed(m, nodes[pda].record, pda)
    ensures Elements(step.creations) <= AbsentIn(m, Closure(nodes, anchor).value)
  {
    CandidateFacts(H, nodes, Asking(m, nodes, payer, target), AnySize(), step);
  }

  lemma RequestsAreUnproblematic(H: Hasher, m: Accounts, nodes: Nodes, payer: Key, anchor: Address, target: Address)
    requires Recoverable(H, m, nodes, anchor, target)
    requires Compiles(H, nodes, anchor, [target], LiveNow(m, nodes, payer, anchor, target))
    ensures var proof := CompiledProof(nodes, anchor, [target], LiveNow(m, nodes, payer, anchor, target)).value;
            RequestProblem(nodes, Asking(m, nodes, payer, target), AddressesOf(RequestedIds(H, proof))).None?
  {
    AllRequestedAllowed(H, m, nodes, payer, anchor, target);
  }

  lemma AnchorIsLive(H: Hasher, m: Accounts, nodes: Nodes, payer: Key, anchor: Address, target: Address)
    requires Recoverable(H, m, nodes, anchor, target)
    ensures LiveAnchor(nodes, Asking(m, nodes, payer, target), anchor)
  {
  }

  /** Planning that one target yields a candidate step inside the anchor's closure. */
  lemma TargetCompiles(H: Hasher, m: Accounts, nodes: Nodes, payer: Key, anchor: Address, target: Address)
    returns (step: PlanStep)
    requires Recoverable(H, m, nodes, anchor, target)
    ensures IsCandidate(H, nodes, Asking(m, nodes, payer, target), AnySize(), step)
    ensures step.anchor == anchor && step.targets == [target]
    ensures Elements(step.creations) <= AbsentIn(m, Closure(nodes, anchor).value)
  {
    var context := Asking(m, nodes, payer, target);
    AnchorIsLive(H, m, nodes, payer, anchor, target);
    ProofCompiles(H, m, nodes, payer, anchor, target);
    RequestsAreUnproblematic(H, m, nodes, payer, anchor, target);
    step := UnproblematicIsCandidate(H, nodes, context, anchor, target);
    AllRequestedAllowed(H, m, nodes, payer, anchor, target);
    CreationsAreAbsent(H, m, nodes, payer, anchor, target, step);
  }

  lemma {:induction false} CostGrows(rent: nat -> u64, nodes: Nodes, some: set<Address>, all: set<Address>)
    requires some <= all
    ensures Cost(rent, nodes, some) <= Cost(rent, nodes, all)
    decreases |all|
  {
    if some != {} {
      var pda :| pda in some;
      CostWithout(rent, nodes, some, pda);
      CostWithout(rent, nodes, all, pda);
      CostGrows(rent, nodes, some - {pda}, all - {pda});
    }
  }

  lemma StepIsReady(
    H: Hasher, m: Accounts, env: Env, nodes: Nodes, payer: Key, anchor: Address, target: Address, step: PlanStep)
    requires Recoverable(H, m, nodes, anchor, target)
    requires CanPay(m, payer, Cost(env.rent, nodes, AbsentIn(m, Closure(nodes, anchor).value)))
    requires IsCandidate(H, nodes, Asking(m, nodes, payer, target), AnySize(), step)
    requires Elements(step.creations) <= AbsentIn(m, Closure(nodes, anchor).value)
    ensures Ready(H, m, env.rent, nodes, Asking(m, nodes, payer, target), Elements(step.creations))
  {
    var context, expected := Asking(m, nodes, payer, target), Elements(step.creations);
    ExpectedAreAbsent(H, nodes, context, AnySize(), [step]);
    assert [step][..0] == [];
    assert ExpectedBy([step]) == expected;
    CostGrows(env.rent, nodes, StillMissing(m, expected), AbsentIn(m, Closure(nodes, anchor).value));
  }

  /** Any record behind a live anchor can be brought back by a payer who can cover what is absent
      there: some proof and some accounts make the program recreate exactly the archived
      incarnation, and nothing outside the anchor's history changes. */
  lemma AncestorCanReturn(
    H: Hasher, m: Accounts, env: Env, nodes: Nodes, payer: Key, anchor: Address, target: Address)
    returns (proof: seq<Link>, metas: seq<Meta>)
    requires Recoverable(H, m, nodes, anchor, target)
    requires CanPay(m, payer, Cost(env.rent, nodes, AbsentIn(m, Closure(nodes, anchor).value)))
    ensures var after := Restore(H, m, env, payer, anchor, proof, metas);
            && after.Success?
            && LiveRecordAt(after.value, target) == Some(nodes[target].record)
            && ChangedOnlyFor(m, after.value, payer, Elements(Closure(nodes, anchor).value))
  {
    var context := Asking(m, nodes, payer, target);
    var step := TargetCompiles(H, m, nodes, payer, anchor, target);
    StepIsReady(H, m, env, nodes, payer, anchor, target, step);
    StepAdvances(H, nodes, context, AnySize(), step, m, env, Elements(step.creations));
    ChangedOnlyExpected(H, nodes, context, AnySize(), step, m, env);
    AllowMore(m, Executed(H, m, env, payer, step).value, payer, Elements(step.creations),
              Elements(Closure(nodes, anchor).value));
    proof, metas := step.proof, step.metas;
    assert target in step.targets;
  }

  lemma RestoreReturns(
    H: Hasher, m: Accounts, env: Env, nodes: Nodes, payer: Key, anchor: Address, target: Address)
    returns (restore: Action)
    requires Recoverable(H, m, nodes, anchor, target)
    requires CanPay(m, payer, Cost(env.rent, nodes, AbsentIn(m, Closure(nodes, anchor).value)))
    ensures restore.env == env && restore.instruction.RestoreProof?
    ensures restore.instruction.user == payer && restore.instruction.anchor == anchor
    ensures var after := Apply(H, m, env, restore.instruction);
            after.Success? && LiveRecordAt(after.value, target) == Some(nodes[target].record)
  {
    var proof, metas := AncestorCanReturn(H, m, env, nodes, payer, anchor, target);
    restore := Action(env, RestoreProof(payer, anchor, proof, metas));
  }

  lemma RunOneMore(H: Hasher, genesis: Accounts, actions: seq<Action>, next: Action)
    requires Apply(H, Run(H, genesis, actions), next.env, next.instruction).Success?
    ensures Run(H, genesis, actions + [next]) == Apply(H, Run(H, genesis, actions), next.env, next.instruction).value
  {
    assert (actions + [next])[..|actions|] == actions;
  }

  lemma ReturnedWasStamped(
    H: Hasher, genesis: Accounts, actions: seq<Action>, restore: Action, nodes: Nodes, target: Address)
    returns (k: nat)
    requires Genesis(genesis) && target.HashPda?
    requires restore.instruction.RestoreProof?
    requires target in nodes && LiveRecordAt(Run(H, genesis, actions + [restore]), target) == Some(nodes[target].record)
    ensures CollisionFree(H, HashedInRun(H, genesis, actions + [restore])) ==>
              k < |actions| && StampedAt(H, genesis, actions + [restore], nodes[target].record, k)
  {
    k := 0;
    if CollisionFree(H, HashedInRun(H, genesis, actions + [restore])) {
      k := NoInventedHistory(H, genesis, actions + [restore], target.id);
    }
  }

  /** In a run: the incarnation that returns was stamped by an earlier creation of that run,
      unless two strings the run hashed collide. */
  lemma HistoryCanReturn(
    H: Hasher, genesis: Accounts, actions: seq<Action>, env: Env, nodes: Nodes, payer: Key, anchor: Address,
    target: Address)
    returns (restore: Action, k: nat)
    requires Genesis(genesis) && Recoverable(H, Run(H, genesis, actions), nodes, anchor, target)
    requires CanPay(Run(H, genesis, actions), payer,
                    Cost(env.rent, nodes, AbsentIn(Run(H, genesis, actions), Closure(nodes, anchor).value)))
    ensures restore.env == env && restore.instruction.RestoreProof?
    ensures restore.instruction.user == payer && restore.instruction.anchor == anchor
    ensures Apply(H, Run(H, genesis, actions), env, restore.instruction).Success?
    ensures LiveRecordAt(Run(H, genesis, actions + [restore]), target) == Some(nodes[target].record)
    ensures CollisionFree(H, HashedInRun(H, genesis, actions + [restore])) ==>
              k < |actions| && StampedAt(H, genesis, actions + [restore], nodes[target].record, k)
  {
    restore := RestoreReturns(H, Run(H, genesis, actions), env, nodes, payer, anchor, target);
    RunOneMore(H, genesis, actions, restore);
    assert WellFormedNode(H, target, nodes[target]);
    k := ReturnedWasStamped(H, genesis, actions, restore, nodes, target);
  }

  // ----- Necessary: another live incarnation is in the way of every restore from the anchor

  /** The archive's own proof of the anchor, asking for nothing and taking accounts as existing. */
  ghost function Known(nodes: Nodes, anchor: Address): seq<Link>
    requires Closure(nodes, anchor).Some?
  {
    var compiled := CompiledProof(nodes, anchor, [], Elements(Closure(nodes, anchor).value));
    if compiled.Success? then compiled.value else []
  }

  function UpTo(n: nat): (r: set<nat>)
    ensures forall i: nat :: i in r <==> i < n
  {
    if n == 0 then {} else UpTo(n - 1) + {n - 1}
  }

  lemma KnownIsAccepted(H: Hasher, nodes: Nodes, anchor: Address)
    requires ValidNodes(H, nodes) && Closure(nodes, anchor).Some?
    ensures Compiles(H, nodes, anchor, [], Elements(Closure(nodes, anchor).value)) && Known(nodes, anchor) != []
    ensures Accepted(H, Known(nodes, anchor), UpTo(|Known(nodes, anchor)|))
  {
    var order := Closure(nodes, anchor).value;
    ClosureCompiles(nodes, anchor, [], Elements(order));
    CompiledEntries(H, nodes, anchor, [], Elements(order));
    CompiledProofAccepted(H, nodes, anchor, [], Elements(order), UpTo(|Known(nodes, anchor)|));
  }

  /** The entry of the archive's own proof for one address. */
  lemma KnownEntry(H: Hasher, nodes: Nodes, anchor: Address, pda: Address) returns (j: nat)
    requires ValidNodes(H, nodes) && Closure(nodes, anchor).Some? && pda in Closure(nodes, anchor).value
    requires Compiles(H, nodes, anchor, [], Elements(Closure(nodes, anchor).value))
    ensures j < |Known(nodes, anchor)| && pda in nodes
    ensures Known(nodes, anchor)[j].record == nodes[pda].record && HashPda(nodes[pda].record.Id(H)) == pda
    ensures pda == anchor ==> j == 0
  {
    var existing := Elements(Closure(nodes, anchor).value);
    CompiledEntries(H, nodes, anchor, [], existing);
    ListedRotatesOrder(nodes, anchor);
    var listed := Listed(nodes, anchor);
    assert pda in listed;
    j :| 0 <= j < |listed| && listed[j] == pda;
    EntryRecord(H, nodes, listed[j], Elements([]), existing + {anchor}, Known(nodes, anchor)[j]);
    if pda == anchor {
      assert listed[0] == anchor;
    }
  }

  lemma KnownAncestor(H: Hasher, nodes: Nodes, anchor: Address, pda: Address) returns (known: seq<Link>, j: nat)
    requires ValidNodes(H, nodes) && Closure(nodes, anchor).Some? && pda in Closure(nodes, anchor).value
    ensures known == Known(nodes, anchor) && known != [] && Accepted(H, known, UpTo(|known|))
    ensures anchor in nodes && known[0].record == nodes[anchor].record
    ensures j < |known| && pda in nodes && known[j].record == nodes[pda].record
    ensures HashPda(nodes[pda].record.Id(H)) == pda
  {
    KnownIsAccepted(H, nodes, anchor);
    known := Known(nodes, anchor);
    WalkedAreCompilable(nodes, anchor);
    var first := KnownEntry(H, nodes, anchor, anchor);
    j := KnownEntry(H, nodes, anchor, pda);
  }

  /** What a successful restore that names accounts has checked. */
  lemma RestoredFrom(
    H: Hasher, m: Accounts, env: Env, payer: Key, anchor: Address, proof: seq<Link>, metas: seq<Meta>)
    returns (bound: Pairs, existing: set<nat>)
    requires Restore(H, m, env, payer, anchor, proof, metas).Success? && metas != []
    ensures Accepted(H, proof, existing) && proof != [] && Distinct(ProofIds(H, proof))
    ensures LiveRecordAt(m, anchor) == Some(proof[0].record) && anchor == HashPda(proof[0].record.Id(H))
    ensures bound.Keys == Eligible(proof)
    ensures forall i | i in bound ::
              PairFor(H, payer, proof, i, bound[i]) && ValidatePair(H, m, payer, proof[i], bound[i]).Success?
  {
    bound := Bind(H, payer, proof, metas).value;
    existing := Existing(H, m, payer, proof, bound, |proof|).value;
    BindIsBijection(H, payer, proof, metas);
    ExistingExact(H, m, payer, proof, bound, |proof|);
  }

  lemma ValidatedIsAllowed(H: Hasher, m: Accounts, payer: Key, link: Link, pair: Pair)
    requires ValidatePair(H, m, payer, link, pair).Success? && pair.hash.address == HashPda(link.record.Id(H))
    ensures Allowed(m, link.record, HashPda(link.record.Id(H)))
  {
  }

  lemma DerivedHaveParameters(H: Hasher, proof: seq<Link>, existing: set<nat>, i: nat)
    requires Accepted(H, proof, existing) && 0 < i < |proof| && !proof[i].record.source.Raw?
    ensures i in Eligible(proof)
  {
    CommittedAt(H, proof, existing, i);
  }

  /** An accepted proof of the same anchor has an agreeing entry for each known one. */
  lemma SharedEntry(
    H: Hasher, proof: seq<Link>, existing: set<nat>, known: seq<Link>, all: set<nat>, j: nat) returns (i: nat)
    requires Accepted(H, proof, existing) && Accepted(H, known, all) && proof[0].record == known[0].record
    requires CollisionFree(H, ProofStrings(proof) + ProofStrings(known)) && j < |known|
    ensures i < |proof| && proof[i].record.Id(H) == known[j].record.Id(H) && Agreeing(proof[i], known[j])
  {
    AnchorBindsProof(H, proof, existing, known, all);
    assert ProofIds(H, known)[j] in Elements(ProofIds(H, proof));
    i :| 0 <= i < |proof| && ProofIds(H, proof)[i] == known[j].record.Id(H);
  }

  /** An accepted proof of the archive's anchor lists every record behind it. */
  lemma AncestorListed(
    H: Hasher, nodes: Nodes, anchor: Address, proof: seq<Link>, existing: set<nat>, pda: Address) returns (i: nat)
    requires ValidNodes(H, nodes) && Closure(nodes, anchor).Some? && pda in Closure(nodes, anchor).value
    requires CollisionFree(H, ProofStrings(proof) + ProofStrings(Known(nodes, anchor)))
    requires Accepted(H, proof, existing) && anchor in nodes && proof[0].record == nodes[anchor].record
    ensures i < |proof| && pda in nodes && HashPda(proof[i].record.Id(H)) == pda
    ensures proof[i].record.AsFingerprint() == nodes[pda].record.AsFingerprint()
    ensures SourceAgrees(proof[i].record.source, nodes[pda].record.source)
  {
    var known, j := KnownAncestor(H, nodes, anchor, pda);
    i := SharedEntry(H, proof, existing, known, UpTo(|known|), j);
  }

  /** A restore from this anchor that names any account succeeds only where every derived record
      behind the anchor is absent or live in the archived incarnation (an account record up to the
      key that only its snapshot fixes), unless two hashed strings collide. */
  lemma ConflictBlocksRestore(
    H: Hasher, m: Accounts, env: Env, nodes: Nodes, payer: Key, anchor: Address,
    proof: seq<Link>, metas: seq<Meta>, pda: Address)
    requires ValidNodes(H, nodes) && Closure(nodes, anchor).Some? && pda in Closure(nodes, anchor).value
    requires CollisionFree(H, ProofStrings(proof) + ProofStrings(Known(nodes, anchor)))
    requires anchor in nodes && LiveRecordAt(m, anchor) == Some(nodes[anchor].record)
    requires pda in nodes && pda != anchor && !nodes[pda].record.source.Raw?
    requires Restore(H, m, env, payer, anchor, proof, metas).Success? && metas != []
    ensures LiveRecordAt(m, pda).Some? ==>
              && LiveRecordAt(m, pda).value.AsFingerprint() == nodes[pda].record.AsFingerprint()
              && SourceAgrees(LiveRecordAt(m, pda).value.source, nodes[pda].record.source)
  {
    var bound, existing := RestoredFrom(H, m, env, payer, anchor, proof, metas);
    var i := AncestorListed(H, nodes, anchor, proof, existing, pda);
    DerivedHaveParameters(H, proof, existing, i);
    ValidatedIsAllowed(H, m, payer, proof[i], bound[i]);
  }
}
