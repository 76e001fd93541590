/** Executing a plan on the chain, one transaction per step, with a growing receipt of the
    history the completed steps authenticated. */
module RestoreRunner {
  import opened Outcomes
  import opened Encoding
  import opened Ledger
  import opened LedgerInvariant
  import opened Instructions
  import opened Archives
  import opened Merging
  import opened Importing
  import opened ProofCompiler
  import opened Candidates
  import opened Planner
  import opened RestorePlanning
  import opened StepAccounts
  import opened PlanExecution
  import opened Chain

  // ----- Receipts

  function Part(archive: Archive, pdas: seq<Address>): Archive {
    Archive(archive.programId, Restricted(archive.nodes, pdas))
  }

  function StepReceipt(archive: Archive, step: PlanStep): Archive {
    match Closure(archive.nodes, step.anchor)
    case None => Part(archive, [])
    case Some(closure) => Part(archive, closure)
  }

  /** Some proof from the step's anchor lists this address. */
  ghost predicate Behind(archive: Archive, step: PlanStep, a: Address) {
    Closure(archive.nodes, step.anchor).Some? && a in Closure(archive.nodes, step.anchor).value
  }

  /** The nodes of `part` are the archive's own. */
  ghost predicate IsPart(part: Archive, archive: Archive) {
    && part.programId == archive.programId
    && forall a | a in part.nodes :: a in archive.nodes && part.nodes[a] == archive.nodes[a]
  }

  ghost function Both(archive: Archive, a: Archive, b: Archive): Archive
    requires IsPart(a, archive) && IsPart(b, archive)
  {
    Archive(archive.programId, map pda | pda in a.nodes.Keys + b.nodes.Keys :: archive.nodes[pda])
  }

  lemma PartIsBelow(part: Archive, archive: Archive)
    requires IsPart(part, archive)
    ensures Leq(part, archive)
  {
    forall a | a in part.nodes
      ensures a in archive.nodes && NodeLeq(part.nodes[a], archive.nodes[a])
    {
      assert part.nodes[a] == archive.nodes[a];
    }
  }

  lemma BothBounds(H: Hasher, archive: Archive, a: Archive, b: Archive)
    requires ValidArchive(H, archive) && IsPart(a, archive) && IsPart(b, archive)
    ensures Leq(a, Both(archive, a, b)) && Leq(b, Both(archive, a, b)) && Leq(Both(archive, a, b), archive)
    ensures ValidArchive(H, Both(archive, a, b)) && IsUpperBound([a, b], Both(archive, a, b))
  {
    var both := Both(archive, a, b);
    PartIsBelow(a, both);
    PartIsBelow(b, both);
    PartIsBelow(both, archive);
    ValidDownward(H, both, archive);
  }

  /** Merging two parts gives the part that holds both, and nothing else. */
  lemma PartsMerge(H: Hasher, archive: Archive, a: Archive, b: Archive)
    requires ValidArchive(H, archive) && IsPart(a, archive) && IsPart(b, archive)
    ensures Merged(H, [a, b]) == Some(Both(archive, a, b))
  {
    BothBounds(H, archive, a, b);
    MergeIsLeastUpperBound(H, [a, b]);
    var r := Merged(H, [a, b]).value;
    assert Leq(r, Both(archive, a, b));
    assert a in [a, b] && b in [a, b];
    BothIsLeast(archive, a, b, r);
    LeqAntisymmetric(r, Both(archive, a, b));
  }

  lemma BothIsLeast(archive: Archive, a: Archive, b: Archive, r: Archive)
    requires IsPart(a, archive) && IsPart(b, archive) && Leq(a, r) && Leq(b, r)
    ensures Leq(Both(archive, a, b), r)
  {
    forall pda | pda in a.nodes.Keys + b.nodes.Keys
      ensures pda in r.nodes && NodeLeq(archive.nodes[pda], r.nodes[pda])
    {
      assert pda in a.nodes ==> NodeLeq(a.nodes[pda], r.nodes[pda]);
      assert pda in b.nodes ==> NodeLeq(b.nodes[pda], r.nodes[pda]);
    }
  }

  lemma TargetsInReceipt(H: Hasher, archive: Archive, context: Context, wire: Wire, step: PlanStep)
    requires IsCandidate(H, archive.nodes, context, wire, step)
    ensures forall t | t in step.targets :: t in StepReceipt(archive, step).nodes
  {
    CandidateFacts(H, archive.nodes, context, wire, step);
    var existing :| CompiledWith(archive.nodes, context, step, existing);
    WalkedAreCompilable(archive.nodes, step.anchor);
    forall t | t in step.targets
      ensures t in StepReceipt(archive, step).nodes
    {
      assert t in Closure(archive.nodes, step.anchor).value;
    }
  }

  // ----- Effects of a prefix of the plan

  lemma ChangedTwice(m: Accounts, middle: Accounts, after: Accounts, payer: Key, allowed: set<Address>)
    requires ChangedOnlyFor(m, middle, payer, allowed) && ChangedOnlyFor(middle, after, payer, allowed)
    ensures ChangedOnlyFor(m, after, payer, allowed)
  {
    forall a | At(after, a) != At(m, a)
      ensures MayChange(a, payer, allowed)
    {
      assert At(middle, a) != At(m, a) || At(after, a) != At(middle, a);
    }
  }

  function StepInstruction(payer: Key, step: PlanStep): Instruction {
    RestoreProof(payer, step.anchor, step.proof, step.metas)
  }

  predicate NeedsMore(steps: seq<PlanStep>) {
    exists i | 0 <= i < |steps| :: steps[i].additional != []
  }

  lemma StepOutcome(H: Hasher, m: Accounts, env: Env, payer: Key, step: PlanStep)
    ensures Apply(H, m, env, StepInstruction(payer, step)) == Executed(H, m, env, payer, step)
  {
  }

  method RunStep(H: Hasher, bank: Bank, payer: Key, step: PlanStep, env: Env) returns (ok: bool)
    requires Consistent(H, bank.accounts)
    modifies bank
    ensures ok <==> Executed(H, old(bank.accounts), env, payer, step).Success?
    ensures ok ==> Executed(H, old(bank.accounts), env, payer, step) == Success(bank.accounts)
    ensures !ok ==> bank.accounts == old(bank.accounts)
    ensures Consistent(H, bank.accounts)
  {
    StepOutcome(H, bank.accounts, env, payer, step);
    var outcome := bank.Process(H, env, StepInstruction(payer, step));
    ok := outcome.Pass?;
  }

  /** Authenticated once the first `done` steps are: present before, or behind one of their anchors. */
  ghost predicate Authenticated(archive: Archive, plan: Plan, done: nat, a: Address)
    requires done <= |plan.steps|
  {
    a in plan.alreadyPresent || exists i :: 0 <= i < done && Behind(archive, plan.steps[i], a)
  }

  /** The receipt is exactly the part of the archive that is authenticated so far; the targets of
      the steps done are in it. */
  ghost predicate ReceiptFor(archive: Archive, plan: Plan, done: nat, receipt: Archive) {
    && done <= |plan.steps| && IsPart(receipt, archive)
    && (forall a :: a in receipt.nodes <==> a in archive.nodes && Authenticated(archive, plan, done, a))
    && (forall i, t | 0 <= i < done && t in plan.steps[i].targets :: t in receipt.nodes)
  }

  lemma StepReceiptHolds(archive: Archive, step: PlanStep, a: Address)
    ensures a in StepReceipt(archive, step).nodes <==> a in archive.nodes && Behind(archive, step, a)
  {
  }

  lemma BothHolds(archive: Archive, a: Archive, b: Archive, pda: Address)
    requires IsPart(a, archive) && IsPart(b, archive)
    ensures pda in Both(archive, a, b).nodes <==> pda in a.nodes || pda in b.nodes
  {
  }

  lemma AuthenticatedOneMore(archive: Archive, plan: Plan, done: nat, a: Address)
    requires done < |plan.steps|
    ensures Authenticated(archive, plan, done + 1, a) <==>
            Authenticated(archive, plan, done, a) || Behind(archive, plan.steps[done], a)
  {
  }

  lemma ReceiptKeys(archive: Archive, plan: Plan, done: nat, receipt: Archive)
    requires done < |plan.steps| && ReceiptFor(archive, plan, done, receipt)
    requires IsPart(StepReceipt(archive, plan.steps[done]), archive)
    ensures forall a :: a in Both(archive, receipt, StepReceipt(archive, plan.steps[done])).nodes
                   <==> a in archive.nodes && Authenticated(archive, plan, done + 1, a)
  {
    var part := StepReceipt(archive, plan.steps[done]);
    forall a
      ensures a in Both(archive, receipt, part).nodes <==>
              a in archive.nodes && Authenticated(archive, plan, done + 1, a)
    {
      BothHolds(archive, receipt, part, a);
      StepReceiptHolds(archive, plan.steps[done], a);
      AuthenticatedOneMore(archive, plan, done, a);
    }
  }

  lemma ReceiptTargets(archive: Archive, plan: Plan, done: nat, receipt: Archive)
    requires done < |plan.steps| && ReceiptFor(archive, plan, done, receipt)
    requires IsPart(StepReceipt(archive, plan.steps[done]), archive)
    requires forall t | t in plan.steps[done].targets :: t in StepReceipt(archive, plan.steps[done]).nodes
    ensures forall i, t | 0 <= i < done + 1 && t in plan.steps[i].targets ::
              t in Both(archive, receipt, StepReceipt(archive, plan.steps[done])).nodes
  {
    var part := StepReceipt(archive, plan.steps[done]);
    forall i, t | 0 <= i < done + 1 && t in plan.steps[i].targets
      ensures t in Both(archive, receipt, part).nodes
    {
      BothHolds(archive, receipt, part, t);
    }
  }

  lemma ReceiptGrows(
    H: Hasher, archive: Archive, context: Context, wire: Wire, plan: Plan, done: nat, receipt: Archive)
    requires done < |plan.steps| && ReceiptFor(archive, plan, done, receipt)
    requires IsCandidate(H, archive.nodes, context, wire, plan.steps[done])
    requires IsPart(StepReceipt(archive, plan.steps[done]), archive)
    ensures ReceiptFor(archive, plan, done + 1, Both(archive, receipt, StepReceipt(archive, plan.steps[done])))
  {
    TargetsInReceipt(H, archive, context, wire, plan.steps[done]);
    ReceiptKeys(archive, plan, done, receipt);
    ReceiptTargets(archive, plan, done, receipt);
  }

  /** The first `n` steps have run, taking the ledger from `m` to `m'`. */
  ghost predicate HasRun(
    H: Hasher, m: Accounts, m': Accounts, envs: seq<Env>, payer: Key, steps: seq<PlanStep>, n: nat)
  {
    n <= |steps| && |envs| == |steps| && ExecuteSteps(H, m, envs[..n], payer, steps[..n]) == Success(m')
  }

  lemma NextStep(H: Hasher, m: Accounts, before: Accounts, envs: seq<Env>, payer: Key, steps: seq<PlanStep>, n: nat)
    requires HasRun(H, m, before, envs, payer, steps, n) && n < |steps|
    ensures ExecuteSteps(H, m, envs[..n + 1], payer, steps[..n + 1]) == Executed(H, before, envs[n], payer, steps[n])
  {
    TakeTake(envs, n + 1, n);
    TakeTake(steps, n + 1, n);
    OneMoreStep(H, m, before, envs[..n + 1], payer, steps[..n + 1]);
  }

  /** After `done` steps: their effects and nothing else, and a receipt for them.  Without
      permission for additional records only targets can differ. */
  ghost predicate Running(
    H: Hasher, start: Accounts, now: Accounts, archive: Archive, context: Context, plan: Plan, allowAdditional: bool,
    envs: seq<Env>, done: nat, receipt: Archive)
  {
    && HasRun(H, start, now, envs, context.payer, plan.steps, done)
    && Consistent(H, now) && ReceiptFor(archive, plan, done, receipt)
    && (!allowAdditional ==> ChangedOnlyFor(start, now, context.payer, Elements(context.targets)))
  }

  /** The step after the first `done` fails. */
  ghost predicate StopsAt(H: Hasher, start: Accounts, envs: seq<Env>, payer: Key, steps: seq<PlanStep>, done: nat) {
    done < |steps| && |envs| == |steps| && ExecuteSteps(H, start, envs[..done + 1], payer, steps[..done + 1]).Failure?
  }

  method RunNext(
    H: Hasher, bank: Bank, archive: Archive, context: Context, ghost wire: Wire, plan: Plan, allowAdditional: bool,
    envs: seq<Env>, done: nat, receipt: Archive, ghost start: Accounts) returns (ok: bool, r: Archive)
    requires ValidArchive(H, archive) && AllCandidates(H, archive.nodes, context, wire, plan.steps)
    requires Running(H, start, bank.accounts, archive, context, plan, allowAdditional, envs, done, receipt)
    requires done < |plan.steps| && (allowAdditional || plan.steps[done].additional == [])
    modifies bank
    ensures ok ==> Running(H, start, bank.accounts, archive, context, plan, allowAdditional, envs, done + 1, r)
    ensures !ok ==> bank.accounts == old(bank.accounts) && StopsAt(H, start, envs, context.payer, plan.steps, done)
  {
    r := receipt;
    NextStep(H, start, bank.accounts, envs, context.payer, plan.steps, done);
    ok := RunStep(H, bank, context.payer, plan.steps[done], envs[done]);
    if ok {
      if !allowAdditional {
        StepCreatesOnlyExpected(H, archive.nodes, context, wire, plan.steps[done], old(bank.accounts), envs[done]);
        ChangedTwice(start, old(bank.accounts), bank.accounts, context.payer, Elements(context.targets));
      }
      r := AddReceipt(H, archive, context, wire, plan, done, receipt);
    }
  }

  /** What a plan was prepared for, and what it is executed with. */
  datatype Session = Session(connection: nat, endpoint: string, programId: Key, payer: Key, feePayer: Key)

  /** Only plans prepared by the planner are executed, in an unchanged session, and additional
      records only with permission. */
  predicate Refused(prepared: Option<Session>, session: Session, plan: Plan, allowAdditional: bool) {
    prepared != Some(session) || (!allowAdditional && NeedsMore(plan.steps))
  }

  lemma CompletesUnlessFailing(
    H: Hasher, start: Accounts, now: Accounts, envs: seq<Env>, payer: Key, steps: seq<PlanStep>, done: nat)
    requires HasRun(H, start, now, envs, payer, steps, done) && ExecuteSteps(H, start, envs, payer, steps).Success?
    requires done == |steps| || StopsAt(H, start, envs, payer, steps, done)
    ensures done == |steps| && ExecuteSteps(H, start, envs, payer, steps) == Success(now)
  {
    if done < |steps| {
      PrefixFails(H, start, envs, payer, steps, done + 1);
    }
    assert envs[..|envs|] == envs && steps[..|steps|] == steps;
  }

  /** On the ledger it was made from, a funded plan cannot stop early. */
  lemma FundedCompletes(
    H: Hasher, archive: Archive, context: Context, wire: Wire, plan: Plan, rent: nat -> u64, envs: seq<Env>,
    start: Accounts, now: Accounts, done: nat)
    requires ValidArchive(H, archive) && FundedPlan(H, archive.nodes, context, wire, plan, start, rent, envs)
    requires HasRun(H, start, now, envs, context.payer, plan.steps, done)
    requires done == |plan.steps| || StopsAt(H, start, envs, context.payer, plan.steps, done)
    ensures done == |plan.steps| && AllBack(archive.nodes, now, context.targets)
  {
    PlanRestoresTargets(H, archive.nodes, context, wire, plan, start, rent, envs);
    CompletesUnlessFailing(H, start, now, envs, context.payer, plan.steps, done);
  }

  /** Runs the plan's steps in order and stops at the first that fails; steps already done stay
      done.  Without permission for additional records only targets can be created, whatever
      else the chain holds.  On the ledger it was made from, a funded plan completes and every
      target is live as archived. */
  method ExecuteArchiveRestore(
    H: Hasher, bank: Bank, archive: Archive, context: Context, ghost wire: Wire, plan: Plan,
    prepared: Option<Session>, session: Session, allowAdditional: bool, envs: seq<Env>, ghost rent: nat -> u64)
    returns (completed: nat, receipt: Archive)
    requires ValidArchive(H, archive) && AllCandidates(H, archive.nodes, context, wire, plan.steps)
    requires Consistent(H, bank.accounts) && |envs| == |plan.steps|
    modifies bank
    ensures prepared != Some(session) ==> completed == 0 && bank.accounts == old(bank.accounts)
    ensures !allowAdditional && (exists i :: 0 <= i < |plan.steps| && plan.steps[i].additional != []) ==>
              completed == 0 && bank.accounts == old(bank.accounts)
    ensures Running(H, old(bank.accounts), bank.accounts, archive, context, plan, allowAdditional, envs, completed,
                    receipt)
    ensures prepared == Some(session)
            && (allowAdditional || forall i | 0 <= i < |plan.steps| :: plan.steps[i].additional == []) ==>
              completed == |plan.steps| || StopsAt(H, old(bank.accounts), envs, context.payer, plan.steps, completed)
    ensures prepared == Some(session)
            && (allowAdditional || forall i | 0 <= i < |plan.steps| :: plan.steps[i].additional == [])
            && FundedPlan(H, archive.nodes, context, wire, plan, old(bank.accounts), rent, envs)
            ==> completed == |plan.steps| && AllBack(archive.nodes, bank.accounts, context.targets)
  {
    completed, receipt := 0, Part(archive, plan.alreadyPresent);
    SelectionValid(H, archive, plan.alreadyPresent);
    if Refused(prepared, session, plan, allowAdditional) {
      return;
    }
    completed, receipt := RunAll(H, bank, archive, context, wire, plan, allowAdditional, envs, receipt);
    if FundedPlan(H, archive.nodes, context, wire, plan, old(bank.accounts), rent, envs) {
      FundedCompletes(H, archive, context, wire, plan, rent, envs, old(bank.accounts), bank.accounts, completed);
    }
  }

  method RunAll(
    H: Hasher, bank: Bank, archive: Archive, context: Context, ghost wire: Wire, plan: Plan, allowAdditional: bool,
    envs: seq<Env>, present: Archive) returns (completed: nat, receipt: Archive)
    requires ValidArchive(H, archive) && AllCandidates(H, archive.nodes, context, wire, plan.steps)
    requires allowAdditional || !NeedsMore(plan.steps)
    requires Running(H, bank.accounts, bank.accounts, archive, context, plan, allowAdditional, envs, 0, present)
    modifies bank
    ensures Running(H, old(bank.accounts), bank.accounts, archive, context, plan, allowAdditional, envs, completed,
                    receipt)
    ensures completed == |plan.steps| || StopsAt(H, old(bank.accounts), envs, context.payer, plan.steps, completed)
  {
    completed, receipt := 0, present;
    while completed < |plan.steps|
      invariant completed <= |plan.steps|
      invariant Running(H, old(bank.accounts), bank.accounts, archive, context, plan, allowAdditional, envs, completed,
                        receipt)
    {
      var ok, grown :=
        RunNext(H, bank, archive, context, wire, plan, allowAdditional, envs, completed, receipt, old(bank.accounts));
      if !ok {
        return;
      }
      receipt, completed := grown, completed + 1;
    }
  }

  lemma StepReceiptIsPart(archive: Archive, step: PlanStep)
    ensures IsPart(StepReceipt(archive, step), archive)
  {
  }

  method MergeParts(H: Hasher, ghost archive: Archive, a: Archive, b: Archive) returns (r: Archive)
    requires ValidArchive(H, archive) && IsPart(a, archive) && IsPart(b, archive)
    ensures r == Both(archive, a, b)
  {
    PartsMerge(H, archive, a, b);
    assert [a] + [b] == [a, b];
    var merged := MergeArchives(H, a, [b]);
    r := merged.value;
  }

  method AddReceipt(
    H: Hasher, archive: Archive, ghost context: Context, ghost wire: Wire, plan: Plan, done: nat, receipt: Archive)
    returns (r: Archive)
    requires ValidArchive(H, archive) && done < |plan.steps| && ReceiptFor(archive, plan, done, receipt)
    requires IsCandidate(H, archive.nodes, context, wire, plan.steps[done])
    ensures ReceiptFor(archive, plan, done + 1, r)
  {
    StepReceiptIsPart(archive, plan.steps[done]);
    r := MergeParts(H, archive, receipt, StepReceipt(archive, plan.steps[done]));
    ReceiptGrows(H, archive, context, wire, plan, done, receipt);
  }
}
