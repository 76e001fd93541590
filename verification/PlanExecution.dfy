/** End to end: every step of a plan executed in order passes every on-chain check, and in the
    end every target is live with its archived history. */
module PlanExecution {
  import opened Outcomes
  import opened Encoding
  import opened Records
  import opened Errors
  import opened Ledger
  import opened LedgerInvariant
  import opened ProofGraph
  import opened AnchorBinding
  import opened Restoring
  import opened RestoreEffects
  import opened Archives
  import opened ProofCompiler
  import opened CompilerCorrectness
  import opened Candidates
  import opened Planner
  import opened RestorePlanning
  import opened StepAccounts
  import opened Funding

  // ----- The shape of a step's proof

  /** Entry `i` carries its archived record. */
  ghost predicate FromArchive(H: Hasher, nodes: Nodes, link: Link) {
    var pda := HashPda(link.record.Id(H));
    pda in nodes && nodes[pda].record == link.record && link.record.createdAt != 0
  }

  /** Every target is the anchor or one of the parametric entries. */
  ghost predicate CoversTarget(H: Hasher, proof: seq<Link>, t: Address) {
    exists i :: 0 <= i < |proof| && HashPda(proof[i].record.Id(H)) == t && (i == 0 || i in Eligible(proof))
  }

  ghost predicate AccountsEligible(proof: seq<Link>) {
    forall i | 1 <= i < |proof| && proof[i].record.source.Account? :: i in Eligible(proof)
  }

  ghost predicate ProofReady(H: Hasher, nodes: Nodes, proof: seq<Link>) {
    && proof != [] && Distinct(ProofIds(H, proof)) && Parse(H, proof).Success?
    && forall i | 0 <= i < |proof| :: FromArchive(H, nodes, proof[i])
  }

  lemma CompiledReady(H: Hasher, nodes: Nodes, anchor: Address, targets: seq<Address>, existing: set<Address>)
    requires Compiles(H, nodes, anchor, targets, existing)
    ensures var proof := CompiledProof(nodes, anchor, targets, existing).value;
            ProofReady(H, nodes, proof) && HashPda(proof[0].record.Id(H)) == anchor
  {
    var proof, listed := CompiledProof(nodes, anchor, targets, existing).value, Listed(nodes, anchor);
    CompiledEntries(H, nodes, anchor, targets, existing);
    CompiledIds(H, nodes, anchor, targets, existing);
    CompiledParses(H, nodes, anchor, targets, existing);
    forall i | 0 <= i < |proof|
      ensures FromArchive(H, nodes, proof[i]) && HashPda(proof[i].record.Id(H)) == listed[i]
    {
      EntryRecord(H, nodes, listed[i], Elements(targets), existing + {anchor}, proof[i]);
    }
  }

  lemma EntryEligible(H: Hasher, nodes: Nodes, pda: Address, targets: set<Address>, existing: set<Address>, link: Link)
    requires EntryFrom(H, nodes, pda, targets, existing, link)
    ensures HashPda(link.record.Id(H)) == pda
    ensures link.record.source.Account? || pda in targets ==> link.params.Some?
  {
  }

  lemma ListedAreCovered(H: Hasher, proof: seq<Link>, listed: seq<Address>, targets: seq<Address>)
    requires |listed| == |proof| && forall i | 0 <= i < |proof| :: HashPda(proof[i].record.Id(H)) == listed[i]
    requires forall i | 0 < i < |proof| && listed[i] in targets :: i in Eligible(proof)
    requires forall t | t in targets :: t in listed
    ensures forall t | t in targets :: CoversTarget(H, proof, t)
  {
    forall t | t in targets
      ensures CoversTarget(H, proof, t)
    {
      var i :| 0 <= i < |listed| && listed[i] == t;
    }
  }

  lemma CompiledCovers(H: Hasher, nodes: Nodes, anchor: Address, targets: seq<Address>, existing: set<Address>)
    requires Compiles(H, nodes, anchor, targets, existing)
    ensures var proof := CompiledProof(nodes, anchor, targets, existing).value;
            AccountsEligible(proof) && forall t | t in targets :: CoversTarget(H, proof, t)
  {
    var proof, listed := CompiledProof(nodes, anchor, targets, existing).value, Listed(nodes, anchor);
    CompiledEntries(H, nodes, anchor, targets, existing);
    ListedRotatesOrder(nodes, anchor);
    forall i | 0 <= i < |proof|
      ensures HashPda(proof[i].record.Id(H)) == listed[i]
      ensures i > 0 && (proof[i].record.source.Account? || listed[i] in targets) ==> i in Eligible(proof)
    {
      EntryEligible(H, nodes, listed[i], Elements(targets), existing + {anchor}, proof[i]);
    }
    forall t | t in targets
      ensures t in listed
    {
      assert t in Order(nodes, anchor);
    }
    ListedAreCovered(H, proof, listed, targets);
  }

  // ----- Preflight

  /** The ledger allows this record: absent, or live exactly as archived. */
  ghost predicate Allowed(m: Accounts, r: Record, pda: Address) {
    LiveRecordAt(m, pda).None? || LiveRecordAt(m, pda) == Some(r)
  }

  lemma AnchorPasses(H: Hasher, m: Accounts, anchor: Address, tip: Link)
    requires Consistent(H, m) && anchor == HashPda(tip.record.Id(H)) && LiveRecordAt(m, anchor) == Some(tip.record)
    ensures ValidateAnchor(H, m, anchor, tip).Pass?
  {
    assert Placed(H, m, anchor);
  }

  lemma PairPasses(H: Hasher, m: Accounts, payer: Key, link: Link, writable: seq<Address>)
    requires var pda := HashPda(link.record.Id(H));
             Consistent(H, m) && Allowed(m, link.record, pda) && (LiveRecordAt(m, pda).None? ==> pda in writable)
    ensures ValidatePair(H, m, payer, link, PairAt(H, payer, link, writable))
         == Success(LiveRecordAt(m, HashPda(link.record.Id(H))).Some?)
  {
    var id := link.record.Id(H);
    assert Placed(H, m, HashPda(id)) && Placed(H, m, VotePda(payer, id));
    if At(m, VotePda(payer, id)).owner == Program {
      VoteImpliesRecord(H, m, payer, id);
    }
  }

  /** The step fits the ledger: its anchor is live, and every bound record is live as archived
      or absent and expected. */
  ghost predicate StepFits(H: Hasher, nodes: Nodes, context: Context, step: PlanStep, m: Accounts) {
    && step.proof != [] && LiveRecordAt(m, step.anchor) == Some(step.proof[0].record)
    && (context.create ==> forall i | i in Eligible(step.proof) ::
          var pda := HashPda(step.proof[i].record.Id(H));
          Allowed(m, step.proof[i].record, pda) && (LiveRecordAt(m, pda).None? ==> pda in step.creations))
  }

  lemma RequestedEntries(H: Hasher, context: Context, step: PlanStep)
    requires context.create && Distinct(ProofIds(H, step.proof))
    requires step.requested == AddressesOf(IdsFor(H, context, step))
    ensures forall i | i in Eligible(step.proof) :: HashPda(step.proof[i].record.Id(H)) in step.requested
    ensures forall pda | pda in step.requested ::
              exists i :: i in Eligible(step.proof) && HashPda(step.proof[i].record.Id(H)) == pda
  {
    RequestedExact(H, step.proof);
    var ids := RequestedIds(H, step.proof);
    forall i | i in Eligible(step.proof)
      ensures HashPda(step.proof[i].record.Id(H)) in step.requested
    {
      assert Requests(H, step.proof, step.proof[i].record.Id(H));
      RenamedMember(ids, step.proof[i].record.Id(H));
    }
    forall pda | pda in step.requested
      ensures exists i :: i in Eligible(step.proof) && HashPda(step.proof[i].record.Id(H)) == pda
    {
      var k :| 0 <= k < |ids| && HashPda(ids[k]) == pda;
      assert Requests(H, step.proof, ids[k]);
    }
  }

  lemma StepFitsLedger(H: Hasher, nodes: Nodes, context: Context, wire: Wire, step: PlanStep, m: Accounts)
    requires IsCandidate(H, nodes, context, wire, step) && ProofReady(H, nodes, step.proof)
    requires HashPda(step.proof[0].record.Id(H)) == step.anchor && Follows(nodes, context, m)
    ensures StepFits(H, nodes, context, step, m)
  {
    CandidateFacts(H, nodes, context, wire, step);
    assert FromArchive(H, nodes, step.proof[0]) && AsReadOrBack(nodes, context, m, step.anchor);
    if context.create {
      RequestedEntries(H, context, step);
      forall i | i in Eligible(step.proof)
        ensures var pda := HashPda(step.proof[i].record.Id(H));
                Allowed(m, step.proof[i].record, pda) && (LiveRecordAt(m, pda).None? ==> pda in step.creations)
      {
        var pda := HashPda(step.proof[i].record.Id(H));
        assert FromArchive(H, nodes, step.proof[i]) && pda in step.requested;
        assert AsReadOrBack(nodes, context, m, pda);
      }
    }
  }

  /** Preflight succeeds, and finds exactly the live entries. */
  lemma StepPreflight(H: Hasher, nodes: Nodes, context: Context, wire: Wire, step: PlanStep, m: Accounts)
    requires IsCandidate(H, nodes, context, wire, step) && ProofReady(H, nodes, step.proof)
    requires HashPda(step.proof[0].record.Id(H)) == step.anchor
    requires Consistent(H, m) && StepFits(H, nodes, context, step, m)
    ensures ValidateAnchor(H, m, step.anchor, step.proof[0]).Pass?
    ensures Bind(H, context.payer, step.proof, step.metas).Success?
    ensures var bound := Bind(H, context.payer, step.proof, step.metas).value;
            && BoundForStep(H, context, step, bound)
            && Existing(H, m, context.payer, step.proof, bound, |step.proof|).Success?
            && forall i :: i in Existing(H, m, context.payer, step.proof, bound, |step.proof|).value
                 <==> i == 0 || (i in bound && LiveRecordAt(m, HashPda(step.proof[i].record.Id(H))).Some?)
  {
    AnchorPasses(H, m, step.anchor, step.proof[0]);
    StepBinds(H, nodes, context, wire, step);
    var bound := Bind(H, context.payer, step.proof, step.metas).value;
    forall i | 1 <= i < |step.proof| && i in bound
      ensures ValidatePair(H, m, context.payer, step.proof[i], bound[i]).Success?
      ensures At(m, bound[i].hash.address).owner == Program
         <==> LiveRecordAt(m, HashPda(step.proof[i].record.Id(H))).Some?
    {
      PairPasses(H, m, context.payer, step.proof[i], step.creations);
      if LiveRecordAt(m, HashPda(step.proof[i].record.Id(H))).None? {
        MissingIsVacant(H, m, step.proof[i].record.Id(H));
      }
    }
    ExistingSucceeds(H, m, context.payer, step.proof, bound, |step.proof|);
    ExistingExact(H, m, context.payer, step.proof, bound, |step.proof|);
  }

  // ----- Execution

  ghost predicate CreatesExpected(
    H: Hasher, nodes: Nodes, m: Accounts, proof: seq<Link>, creations: seq<nat>, expected: set<Address>) {
    forall k | 0 <= k < |creations| ::
      && creations[k] < |proof| && FromArchive(H, nodes, proof[creations[k]])
      && HashPda(proof[creations[k]].record.Id(H)) in expected
      && LiveRecordAt(m, HashPda(proof[creations[k]].record.Id(H))).None?
  }

  ghost predicate BackAt(H: Hasher, m: Accounts, r: Record) {
    LiveRecordAt(m, HashPda(r.Id(H))) == Some(r)
  }

  lemma {:induction false} ExecutionAdvances(
    H: Hasher, m: Accounts, env: Env, nodes: Nodes, context: Context, expected: set<Address>,
    proof: seq<Link>, bound: Pairs, creations: seq<nat>)
    requires Ready(H, m, env.rent, nodes, context, expected) && forall a | a in nodes :: a.HashPda?
    requires Executable(proof, bound, creations) && AllPaired(H, context.payer, proof, bound)
    requires Distinct(ProofIds(H, proof)) && Distinct(creations)
    requires CreatesExpected(H, nodes, m, proof, creations, expected)
    ensures var after := Execute(H, m, env, context.payer, proof, bound, creations);
            && after.Success? && Ready(H, after.value, env.rent, nodes, context, expected) && Grows(m, after.value)
            && (forall k | 0 <= k < |creations| :: BackAt(H, after.value, proof[creations[k]].record))
            && forall i | 0 <= i < |proof| && i !in creations ::
                 var pda := HashPda(proof[i].record.Id(H));
                 LiveRecordAt(after.value, pda) == LiveRecordAt(m, pda)
    decreases |creations|
  {
    if creations != [] {
      var n := |creations| - 1;
      var init, last := creations[..n], creations[n];
      ExecutionAdvances(H, m, env, nodes, context, expected, proof, bound, init);
      var before := Execute(H, m, env, context.payer, proof, bound, init).value;
      var r := proof[last].record;
      assert last !in init;
      assert PairFor(H, context.payer, proof, last, bound[last]);
      CreationAdvances(H, before, env, nodes, context, expected, r);
      var after := Execute(H, m, env, context.payer, proof, bound, creations).value;
      forall k | 0 <= k < n
        ensures BackAt(H, after, proof[creations[k]].record)
      {
        assert BackAt(H, before, proof[init[k]].record);
        DistinctIds(H, proof, creations[k], last);
      }
      forall i | 0 <= i < |proof| && i !in creations
        ensures LiveRecordAt(after, HashPda(proof[i].record.Id(H))) == LiveRecordAt(m, HashPda(proof[i].record.Id(H)))
      {
        assert creations[n] in creations && i !in init;
        DistinctIds(H, proof, i, last);
      }
    }
  }

  /** Every target is live with its archived hash, source and timestamp. */
  ghost predicate AllBack(nodes: Nodes, m: Accounts, targets: seq<Address>) {
    forall t | t in targets :: t in nodes && LiveRecordAt(m, t) == Some(nodes[t].record)
  }

  // ----- One step

  ghost predicate Found(H: Hasher, step: PlanStep, m: Accounts, bound: Pairs, existing: set<nat>) {
    forall i :: i in existing
      <==> (i == 0 || (i in bound && i < |step.proof| && LiveRecordAt(m, HashPda(step.proof[i].record.Id(H))).Some?))
  }

  /** Accounts compiled as already existing are found existing. */
  lemma ExistingAccountsFound(
    H: Hasher, nodes: Nodes, context: Context, step: PlanStep, m: Accounts, compiled: set<Address>, bound: Pairs,
    existing: set<nat>)
    requires ProofReady(H, nodes, step.proof) && AccountsEligible(step.proof) && Follows(nodes, context, m)
    requires HashPda(step.proof[0].record.Id(H)) == step.anchor
    requires BoundForStep(H, context, step, bound) && Found(H, step, m, bound, existing)
    requires CompiledWith(nodes, context, step, compiled)
    requires forall i | i in Eligible(step.proof) && context.create ::
              HashPda(step.proof[i].record.Id(H)) !in context.readErrors
    ensures forall i | 0 <= i < |step.proof| && step.proof[i].record.source.Account?
                       && HashPda(step.proof[i].record.Id(H)) in compiled + {step.anchor} :: i in existing
  {
    forall i | 1 <= i < |step.proof| && step.proof[i].record.source.Account?
               && HashPda(step.proof[i].record.Id(H)) in compiled + {step.anchor}
      ensures i in existing
    {
      DistinctIds(H, step.proof, 0, i);
      assert i in Eligible(step.proof) && i in bound;
      assert AsReadOrBack(nodes, context, m, HashPda(step.proof[i].record.Id(H)));
    }
  }

  /** The program accepts the step's proof on this ledger. */
  lemma StepAccepted(H: Hasher, nodes: Nodes, context: Context, wire: Wire, step: PlanStep, m: Accounts)
    requires ValidNodes(H, nodes) && IsCandidate(H, nodes, context, wire, step)
    requires Consistent(H, m) && Follows(nodes, context, m)
    ensures ProofReady(H, nodes, step.proof) && HashPda(step.proof[0].record.Id(H)) == step.anchor
    ensures forall t | t in step.targets :: CoversTarget(H, step.proof, t)
    ensures StepFits(H, nodes, context, step, m)
    ensures ValidateAnchor(H, m, step.anchor, step.proof[0]).Pass?
    ensures Bind(H, context.payer, step.proof, step.metas).Success?
    ensures var bound := Bind(H, context.payer, step.proof, step.metas).value;
            && BoundForStep(H, context, step, bound)
            && Existing(H, m, context.payer, step.proof, bound, |step.proof|).Success?
            && Accepted(H, step.proof, Existing(H, m, context.payer, step.proof, bound, |step.proof|).value)
  {
    CandidateFacts(H, nodes, context, wire, step);
    var compiled :| CompiledWith(nodes, context, step, compiled);
    CompiledReady(H, nodes, step.anchor, step.targets, compiled);
    CompiledCovers(H, nodes, step.anchor, step.targets, compiled);
    StepFitsLedger(H, nodes, context, wire, step, m);
    StepPreflight(H, nodes, context, wire, step, m);
    if context.create {
      RequestedEntries(H, context, step);
    }
    var bound := Bind(H, context.payer, step.proof, step.metas).value;
    var existing := Existing(H, m, context.payer, step.proof, bound, |step.proof|).value;
    ExistingAccountsFound(H, nodes, context, step, m, compiled, bound, existing);
    CompiledProofAccepted(H, nodes, step.anchor, step.targets, compiled, existing);
  }

  lemma CreatedAreMissing(
    H: Hasher, nodes: Nodes, context: Context, step: PlanStep, m: Accounts, expected: set<Address>)
    requires ProofReady(H, nodes, step.proof) && StepFits(H, nodes, context, step, m)
    requires Elements(step.creations) <= expected && Bind(H, context.payer, step.proof, step.metas).Success?
    requires var bound := Bind(H, context.payer, step.proof, step.metas).value;
             && BoundForStep(H, context, step, bound)
             && Existing(H, m, context.payer, step.proof, bound, |step.proof|).Success?
    ensures CreatesExpected(H, nodes, m, step.proof, Created(H, m, context.payer, step.proof, step.metas), expected)
  {
    var created := Created(H, m, context.payer, step.proof, step.metas);
    CreatedExactly(H, m, context.payer, step.proof, step.metas);
    forall k | 0 <= k < |created|
      ensures created[k] < |step.proof| && FromArchive(H, nodes, step.proof[created[k]])
      ensures HashPda(step.proof[created[k]].record.Id(H)) in expected
      ensures LiveRecordAt(m, HashPda(step.proof[created[k]].record.Id(H))).None?
    {
      assert created[k] in created;
      assert created[k] in Eligible(step.proof);
      assert HashPda(step.proof[created[k]].record.Id(H)) in Elements(step.creations);
    }
  }

  lemma RestoreSplits(H: Hasher, m: Accounts, env: Env, payer: Key, step: PlanStep)
    requires Bind(H, payer, step.proof, step.metas).Success? && Parse(H, step.proof).Success?
    requires step.proof != [] && ValidateAnchor(H, m, step.anchor, step.proof[0]).Pass?
    requires var bound := Bind(H, payer, step.proof, step.metas).value;
             && Existing(H, m, payer, step.proof, bound, |step.proof|).Success?
             && Accepted(H, step.proof, Existing(H, m, payer, step.proof, bound, |step.proof|).value)
    ensures var bound := Bind(H, payer, step.proof, step.metas).value;
            var created := Created(H, m, payer, step.proof, step.metas);
            && Executable(step.proof, bound, created)
            && Executed(H, m, env, payer, step) == Execute(H, m, env, payer, step.proof, bound, created)
  {
    CreatedExactly(H, m, payer, step.proof, step.metas);
  }

  /** A candidate step executes on any ledger that followed the plan so far, restores its
      targets, and leaves the ledger ready for the next step. */
  lemma StepAdvances(
    H: Hasher, nodes: Nodes, context: Context, wire: Wire, step: PlanStep, m: Accounts, env: Env,
    expected: set<Address>)
    requires ValidNodes(H, nodes) && IsCandidate(H, nodes, context, wire, step)
    requires Ready(H, m, env.rent, nodes, context, expected) && Elements(step.creations) <= expected
    ensures var after := Executed(H, m, env, context.payer, step);
            && after.Success? && Ready(H, after.value, env.rent, nodes, context, expected) && Grows(m, after.value)
            && (context.create ==> AllBack(nodes, after.value, step.targets))
  {
    StepAccepted(H, nodes, context, wire, step, m);
    var bound := Bind(H, context.payer, step.proof, step.metas).value;
    var created := Created(H, m, context.payer, step.proof, step.metas);
    CreatedExactly(H, m, context.payer, step.proof, step.metas);
    CreatedAreMissing(H, nodes, context, step, m, expected);
    RestoreSplits(H, m, env, context.payer, step);
    ExecutionAdvances(H, m, env, nodes, context, expected, step.proof, bound, created);
    if context.create {
      TargetsBack(H, nodes, context, step, m, Executed(H, m, env, context.payer, step).value, bound, created);
    }
  }

  lemma TargetsBack(
    H: Hasher, nodes: Nodes, context: Context, step: PlanStep, m: Accounts, after: Accounts, bound: Pairs,
    created: seq<nat>)
    requires context.create && ProofReady(H, nodes, step.proof) && StepFits(H, nodes, context, step, m)
    requires HashPda(step.proof[0].record.Id(H)) == step.anchor && Grows(m, after)
    requires BoundForStep(H, context, step, bound)
    requires forall i :: i in created <==> i in bound && At(m, HashPda(step.proof[i].record.Id(H))).owner != Program
    requires forall k | 0 <= k < |created| ::
              created[k] < |step.proof| && BackAt(H, after, step.proof[created[k]].record)
    requires Consistent(H, m) && forall t | t in step.targets :: CoversTarget(H, step.proof, t)
    ensures forall t | t in step.targets :: t in nodes && LiveRecordAt(after, t) == Some(nodes[t].record)
  {
    forall t | t in step.targets
      ensures t in nodes && LiveRecordAt(after, t) == Some(nodes[t].record)
    {
      var i :| 0 <= i < |step.proof| && HashPda(step.proof[i].record.Id(H)) == t
               && (i == 0 || i in Eligible(step.proof));
      assert FromArchive(H, nodes, step.proof[i]);
      if i > 0 {
        assert Placed(H, m, t);
        if i in created {
          var k :| 0 <= k < |created| && created[k] == i;
          assert BackAt(H, after, step.proof[created[k]].record);
        }
      }
    }
  }

  // ----- The whole plan

  function ExecuteSteps(
    H: Hasher, m: Accounts, envs: seq<Env>, payer: Key, steps: seq<PlanStep>): Result<Accounts, Error>
    requires |envs| == |steps|
  {
    if steps == [] then Success(m)
    else
      var n := |steps| - 1;
      var before :- ExecuteSteps(H, m, envs[..n], payer, steps[..n]);
      Restore(H, before, envs[n], payer, steps[n].anchor, steps[n].proof, steps[n].metas)
  }

  /** Every record some step expects to create. */
  ghost function ExpectedBy(steps: seq<PlanStep>): set<Address> {
    if steps == [] then {} else ExpectedBy(steps[..|steps| - 1]) + Elements(steps[|steps| - 1].creations)
  }

  lemma {:induction false} ExpectedAreAbsent(
    H: Hasher, nodes: Nodes, context: Context, wire: Wire, steps: seq<PlanStep>)
    requires ValidNodes(H, nodes) && AllCandidates(H, nodes, context, wire, steps)
    ensures Absent(nodes, context, ExpectedBy(steps))
    decreases |steps|
  {
    if steps != [] {
      var n := |steps| - 1;
      ExpectedAreAbsent(H, nodes, context, wire, steps[..n]);
      var step := steps[n];
      CandidateFacts(H, nodes, context, wire, step);
      var compiled :| CompiledWith(nodes, context, step, compiled);
      CompiledReady(H, nodes, step.anchor, step.targets, compiled);
      if context.create {
        RequestedEntries(H, context, step);
        forall pda | pda in step.creations
          ensures pda in nodes && pda !in context.readErrors && LiveAt(context, pda).None?
        {
          var i :| i in Eligible(step.proof) && HashPda(step.proof[i].record.Id(H)) == pda;
          assert FromArchive(H, nodes, step.proof[i]);
        }
      }
    }
  }

  /** From `m` to `m'` only expected records came back, all of `targets` among them or live before. */
  ghost predicate Advanced(
    H: Hasher, nodes: Nodes, context: Context, rent: nat -> u64, expected: set<Address>, m: Accounts, m': Accounts,
    targets: seq<Address>)
  {
    && Ready(H, m', rent, nodes, context, expected) && Grows(m, m')
    && forall t | t in targets :: t in nodes && t.HashPda? && LiveRecordAt(m', t) == Some(nodes[t].record)
  }

  lemma AdvancedTwice(
    H: Hasher, nodes: Nodes, context: Context, rent: nat -> u64, expected: set<Address>,
    m: Accounts, middle: Accounts, after: Accounts, first: seq<Address>, second: seq<Address>)
    requires Advanced(H, nodes, context, rent, expected, m, middle, first)
    requires Advanced(H, nodes, context, rent, expected, middle, after, second)
    ensures Advanced(H, nodes, context, rent, expected, m, after, first + second)
  {
    forall t | t in first
      ensures LiveRecordAt(after, t) == Some(nodes[t].record)
    {
      assert LiveRecordAt(middle, HashPda(t.id)).Some?;
    }
  }

  lemma OneStep(
    H: Hasher, nodes: Nodes, context: Context, wire: Wire, steps: seq<PlanStep>, n: nat, m: Accounts, env: Env,
    expected: set<Address>)
    requires ValidNodes(H, nodes) && AllCandidates(H, nodes, context, wire, steps) && n < |steps| && context.create
    requires Ready(H, m, env.rent, nodes, context, expected) && Elements(steps[n].creations) <= expected
    ensures Executed(H, m, env, context.payer, steps[n]).Success?
    ensures Advanced(H, nodes, context, env.rent, expected, m, Executed(H, m, env, context.payer, steps[n]).value,
                     steps[n].targets)
  {
    var step := steps[n];
    StepAdvances(H, nodes, context, wire, step, m, env, expected);
    forall t | t in step.targets
      ensures t.HashPda?
    {
      assert WellFormedNode(H, t, nodes[t]);
    }
  }

  lemma LastStepAdvances(
    H: Hasher, nodes: Nodes, context: Context, wire: Wire, steps: seq<PlanStep>, m: Accounts, before: Accounts,
    envs: seq<Env>, expected: set<Address>)
    requires ValidNodes(H, nodes) && AllCandidates(H, nodes, context, wire, steps) && context.create && steps != []
    requires |envs| == |steps| && Elements(steps[|steps| - 1].creations) <= expected
    requires ExecuteSteps(H, m, envs[..|steps| - 1], context.payer, steps[..|steps| - 1]) == Success(before)
    requires Advanced(H, nodes, context, envs[|steps| - 1].rent, expected, m, before, AllTargets(steps[..|steps| - 1]))
    ensures ExecuteSteps(H, m, envs, context.payer, steps).Success?
    ensures Advanced(H, nodes, context, envs[|steps| - 1].rent, expected, m,
                     ExecuteSteps(H, m, envs, context.payer, steps).value, AllTargets(steps))
  {
    var n := |steps| - 1;
    OneStep(H, nodes, context, wire, steps, n, before, envs[n], expected);
    AdvancedTwice(H, nodes, context, envs[n].rent, expected, m, before,
                  ExecuteSteps(H, m, envs, context.payer, steps).value, AllTargets(steps[..n]), steps[n].targets);
  }

  lemma ExpectedSplit(steps: seq<PlanStep>)
    requires steps != []
    ensures ExpectedBy(steps[..|steps| - 1]) <= ExpectedBy(steps)
    ensures Elements(steps[|steps| - 1].creations) <= ExpectedBy(steps)
  {
  }

  lemma {:induction false} StepsAdvance(
    H: Hasher, nodes: Nodes, context: Context, wire: Wire, steps: seq<PlanStep>, m: Accounts,
    rent: nat -> u64, envs: seq<Env>, expected: set<Address>)
    requires ValidNodes(H, nodes) && AllCandidates(H, nodes, context, wire, steps) && context.create
    requires Ready(H, m, rent, nodes, context, expected) && ExpectedBy(steps) <= expected
    requires |envs| == |steps| && forall k | 0 <= k < |envs| :: envs[k].rent == rent
    ensures ExecuteSteps(H, m, envs, context.payer, steps).Success?
    ensures Advanced(H, nodes, context, rent, expected, m, ExecuteSteps(H, m, envs, context.payer, steps).value,
                     AllTargets(steps))
    decreases |steps|
  {
    if steps != [] {
      var n := |steps| - 1;
      CandidatesPrefix(H, nodes, context, wire, steps, n);
      ExpectedSplit(steps);
      StepsAdvance(H, nodes, context, wire, steps[..n], m, rent, envs[..n], expected);
      LastStepAdvances(H, nodes, context, wire, steps, m,
                       ExecuteSteps(H, m, envs[..n], context.payer, steps[..n]).value, envs, expected);
    }
  }

  /** A plan made from what this ledger held, and a payer who can cover every expected creation. */
  ghost predicate FundedPlan(
    H: Hasher, nodes: Nodes, context: Context, wire: Wire, plan: Plan, m: Accounts, rent: nat -> u64, envs: seq<Env>)
  {
    && context.create && Consistent(H, m) && ReadFrom(nodes, context, m)
    && AllCandidates(H, nodes, context, wire, plan.steps) && plan.alreadyPresent == AlreadyPresent(nodes, context)
    && (forall t | t in context.targets :: Reached(plan, t))
    && CanPay(m, context.payer, Cost(rent, nodes, ExpectedBy(plan.steps)))
    && |envs| == |plan.steps| && forall k | 0 <= k < |envs| :: envs[k].rent == rent
  }

  /** A funded plan executed in order passes all checks and brings every target back. */
  lemma PlanRestoresTargets(
    H: Hasher, nodes: Nodes, context: Context, wire: Wire, plan: Plan, m: Accounts, rent: nat -> u64, envs: seq<Env>)
    requires ValidNodes(H, nodes) && FundedPlan(H, nodes, context, wire, plan, m, rent, envs)
    ensures var after := ExecuteSteps(H, m, envs, context.payer, plan.steps);
            after.Success? && AllBack(nodes, after.value, context.targets)
  {
    var expected := ExpectedBy(plan.steps);
    ExpectedAreAbsent(H, nodes, context, wire, plan.steps);
    assert StillMissing(m, expected) == expected;
    StepsAdvance(H, nodes, context, wire, plan.steps, m, rent, envs, expected);
    forall t | t in plan.alreadyPresent
      ensures t.HashPda? && LiveRecordAt(m, t) == Some(nodes[t].record)
    {
      assert WellFormedNode(H, t, nodes[t]);
    }
    AdvancedTwice(H, nodes, context, rent, expected, m, m, ExecuteSteps(H, m, envs, context.payer, plan.steps).value,
                  plan.alreadyPresent, AllTargets(plan.steps));
  }

  lemma FailureCarries(H: Hasher, m: Accounts, envs: seq<Env>, payer: Key, steps: seq<PlanStep>)
    requires |envs| == |steps| > 0 && ExecuteSteps(H, m, envs[..|steps| - 1], payer, steps[..|steps| - 1]).Failure?
    ensures ExecuteSteps(H, m, envs, payer, steps).Failure?
  {
  }

  lemma OneMoreStep(
    H: Hasher, m: Accounts, before: Accounts, envs: seq<Env>, payer: Key, steps: seq<PlanStep>)
    requires |envs| == |steps| > 0
    requires ExecuteSteps(H, m, envs[..|steps| - 1], payer, steps[..|steps| - 1]) == Success(before)
    ensures ExecuteSteps(H, m, envs, payer, steps)
         == Executed(H, before, envs[|steps| - 1], payer, steps[|steps| - 1])
  {
  }

  lemma TakeTake<T>(s: seq<T>, k: nat, n: nat)
    requires n <= k <= |s|
    ensures s[..k][..n] == s[..n]
  {
  }

  lemma NextFails(H: Hasher, m: Accounts, envs: seq<Env>, payer: Key, steps: seq<PlanStep>, n: nat)
    requires |envs| == |steps| && n < |steps| && ExecuteSteps(H, m, envs[..n], payer, steps[..n]).Failure?
    ensures ExecuteSteps(H, m, envs[..n + 1], payer, steps[..n + 1]).Failure?
  {
    TakeTake(envs, n + 1, n);
    TakeTake(steps, n + 1, n);
    FailureCarries(H, m, envs[..n + 1], payer, steps[..n + 1]);
  }

  /** If some prefix of the steps fails, so do all of them. */
  lemma {:induction false} PrefixFails(
    H: Hasher, m: Accounts, envs: seq<Env>, payer: Key, steps: seq<PlanStep>, n: nat)
    requires |envs| == |steps| && n <= |steps| && ExecuteSteps(H, m, envs[..n], payer, steps[..n]).Failure?
    ensures ExecuteSteps(H, m, envs, payer, steps).Failure?
    decreases |steps| - n
  {
    if n == |steps| {
      assert envs[..n] == envs && steps[..n] == steps;
    } else {
      NextFails(H, m, envs, payer, steps, n);
      PrefixFails(H, m, envs, payer, steps, n + 1);
    }
  }
}
