/** The whole plan: which targets are already live, and steps that bring back the others. */
module RestorePlanning {
  import opened Outcomes
  import opened Encoding
  import opened Ledger
  import opened Archives
  import opened Candidates
  import opened Planner
  import opened GreedyCover

  datatype Plan = Plan(steps: seq<PlanStep>, alreadyPresent: seq<Address>)

  function AlreadyPresent(nodes: Nodes, context: Context): seq<Address> {
    if context.create then Filter(pda => Matches(nodes, context, pda), context.targets) else []
  }

  /** The targets that steps must still bring back. */
  function Missing(nodes: Nodes, context: Context): set<Address> {
    Elements(context.targets) - Elements(AlreadyPresent(nodes, context))
  }

  /** Exactly the targets read as live in the archived incarnation are left alone, and only when
      the request is to create; every other target is planned for. */
  lemma PresentExactly(nodes: Nodes, context: Context, t: Address)
    ensures t in AlreadyPresent(nodes, context) <==>
            && context.create && t in context.targets
            && t in nodes && t in context.live && context.live[t] == Some(nodes[t].record)
    ensures t in Missing(nodes, context) <==> t in context.targets && t !in AlreadyPresent(nodes, context)
  {
  }

  ghost predicate Plannable(H: Hasher, archive: Archive, programId: Key, context: Context) {
    && ValidArchive(H, archive) && archive.programId == programId
    && context.targets != [] && Distinct(context.targets) && AllPresent(archive.nodes, context.targets)
  }

  /** Anchors the planner tries: the one asked for, or every node of the archive. */
  ghost function Tried(archive: Archive, anchor: Option<Address>): set<Address> {
    if anchor.Some? then {anchor.value} else archive.nodes.Keys
  }

  ghost predicate Reached(plan: Plan, t: Address) {
    t in plan.alreadyPresent || t in AllTargets(plan.steps)
  }

  method CheckRequest(H: Hasher, archive: Archive, programId: Key, context: Context) returns (r: Check<PlanError>)
    ensures r.Pass? <==> Plannable(H, archive, programId, context)
  {
    var parsed := ParseArchive(H, archive);
    if parsed.Failure? {
      return Fail(Uncompilable(parsed.error));
    }
    if archive.programId != programId {
      return Fail(Uncompilable(DifferentProgram));
    }
    if context.targets == [] || !Distinct(context.targets) {
      return Fail(DuplicateOrNoTargets);
    }
    for i := 0 to |context.targets|
      invariant forall j | 0 <= j < i :: context.targets[j] in archive.nodes
    {
      if context.targets[i] !in archive.nodes {
        return Fail(UnknownTarget(context.targets[i]));
      }
    }
    r := Pass;
  }

  method ChooseAnchors(archive: Archive, anchor: Option<Address>) returns (anchors: seq<Address>)
    ensures Elements(anchors) == Tried(archive, anchor)
  {
    if anchor.Some? {
      anchors := [anchor.value];
    } else {
      anchors := KeysOf(archive.nodes);
    }
  }

  /** The target can be restored alone from an anchor the planner tries. */
  ghost predicate SomewhereRestorable(
    H: Hasher, archive: Archive, context: Context, anchor: Option<Address>, wire: Wire, t: Address)
  {
    exists a :: a in Tried(archive, anchor) && Restorable(H, archive.nodes, context, wire, a, t)
  }

  ghost predicate AllRestorable(H: Hasher, archive: Archive, context: Context, anchor: Option<Address>, wire: Wire) {
    forall t | t in Missing(archive.nodes, context) :: SomewhereRestorable(H, archive, context, anchor, wire, t)
  }

  lemma UncoveredIsUnrestorable(
    H: Hasher, archive: Archive, context: Context, anchor: Option<Address>, wire: Wire, usable: seq<PlanStep>,
    t: Address)
    requires Collected(H, archive.nodes, context, wire, Tried(archive, anchor), usable)
    requires t in Missing(archive.nodes, context) && t !in AllTargets(usable)
    ensures !SomewhereRestorable(H, archive, context, anchor, wire, t)
  {
    CollectedAreCandidates(H, archive.nodes, context, wire, Tried(archive, anchor), usable);
    forall a | a in Tried(archive, anchor)
      ensures !Restorable(H, archive.nodes, context, wire, a, t)
    {
      assert Keeps(H, archive.nodes, context, wire, a, usable);
    }
  }

  /** What a plan promises.  `usable` are exactly the steps that trying the anchors yields. */
  ghost predicate PlanFor(
    H: Hasher, archive: Archive, context: Context, anchor: Option<Address>, wire: Wire, order: Address -> int,
    usable: seq<PlanStep>, plan: Plan)
  {
    && Collected(H, archive.nodes, context, wire, Tried(archive, anchor), usable)
    && GreedyRun(usable, Missing(archive.nodes, context), order, plan.steps)
    && AllCandidates(H, archive.nodes, context, wire, plan.steps)
    && plan.alreadyPresent == AlreadyPresent(archive.nodes, context)
    && (forall t | t in context.targets :: Reached(plan, t))
  }

  /** A plan reaches every target with candidate steps, chosen greedily among all that the tried
      anchors yield.  It exists whenever each missing target can be restored alone from some live
      anchor. */
  method PlanArchiveRestore(
    H: Hasher, archive: Archive, programId: Key, context: Context, anchor: Option<Address>, wire: Wire,
    order: Address -> int)
    returns (r: Result<Plan, PlanError>, ghost usable: seq<PlanStep>)
    ensures r.Success? ==> Plannable(H, archive, programId, context)
    ensures r.Success? ==> PlanFor(H, archive, context, anchor, wire, order, usable, r.value)
    ensures Plannable(H, archive, programId, context) && AllRestorable(H, archive, context, anchor, wire) ==> r.Success?
  {
    usable := [];
    var request := CheckRequest(H, archive, programId, context);
    if request.Fail? {
      return Failure(request.error), usable;
    }
    var anchors := ChooseAnchors(archive, anchor);
    var candidates := CollectCandidates(H, archive.nodes, context, wire, anchors);
    usable := candidates;
    var steps, uncovered := CoverTargets(candidates, Missing(archive.nodes, context), order);
    if uncovered != {} {
      ghost var t :| t in uncovered;
      UncoveredIsUnrestorable(H, archive, context, anchor, wire, candidates, t);
      return Failure(Uncovered(uncovered)), usable;
    }
    CoveredPlan(H, archive, context, anchor, wire, order, candidates, steps);
    r := Success(Plan(steps, AlreadyPresent(archive.nodes, context)));
  }

  lemma CoveredPlan(
    H: Hasher, archive: Archive, context: Context, anchor: Option<Address>, wire: Wire, order: Address -> int,
    usable: seq<PlanStep>, steps: seq<PlanStep>)
    requires Collected(H, archive.nodes, context, wire, Tried(archive, anchor), usable)
    requires GreedyRun(usable, Missing(archive.nodes, context), order, steps)
    requires Left(Missing(archive.nodes, context), steps) == {}
    ensures PlanFor(H, archive, context, anchor, wire, order, usable,
                    Plan(steps, AlreadyPresent(archive.nodes, context)))
  {
    CollectedAreCandidates(H, archive.nodes, context, wire, Tried(archive, anchor), usable);
    RunOfCandidates(H, archive.nodes, context, wire, usable, Missing(archive.nodes, context), order, steps);
    forall t | t in context.targets
      ensures Reached(Plan(steps, AlreadyPresent(archive.nodes, context)), t)
    {
      assert t in Missing(archive.nodes, context) || t in AlreadyPresent(archive.nodes, context);
    }
  }

  // ----- Quality

  lemma CandidateTargetsDistinct(H: Hasher, nodes: Nodes, context: Context, wire: Wire, step: PlanStep)
    requires IsCandidate(H, nodes, context, wire, step)
    ensures Distinct(step.targets)
  {
  }

  /** If some k of the steps that the tried anchors yield would cover all n missing targets, the
      first t steps of the plan leave at most n ((k - 1) / k)^t of them. */
  lemma PlanQuality(
    H: Hasher, archive: Archive, context: Context, anchor: Option<Address>, wire: Wire, order: Address -> int,
    usable: seq<PlanStep>, plan: Plan, chosen: seq<PlanStep>, t: nat)
    requires PlanFor(H, archive, context, anchor, wire, order, usable, plan) && t <= |plan.steps|
    requires forall c | c in chosen ::
              exists a :: a in Tried(archive, anchor) && c in UsableAt(H, archive.nodes, context, wire, a)
    requires chosen != [] && Missing(archive.nodes, context) <= Elements(AllTargets(chosen))
    ensures |Left(Missing(archive.nodes, context), plan.steps[..t])| * Power(|chosen|, t)
         <= |Missing(archive.nodes, context)| * Power(|chosen| - 1, t)
  {
    CollectedAreCandidates(H, archive.nodes, context, wire, Tried(archive, anchor), usable);
    forall i | 0 <= i < |usable|
      ensures Distinct(usable[i].targets)
    {
      CandidateTargetsDistinct(H, archive.nodes, context, wire, usable[i]);
    }
    GreedyQuality(usable, Missing(archive.nodes, context), order, plan.steps, chosen, t);
  }

  lemma RunOfCandidates(
    H: Hasher, nodes: Nodes, context: Context, wire: Wire, usable: seq<PlanStep>, targets: set<Address>,
    order: Address -> int, steps: seq<PlanStep>)
    requires AllCandidates(H, nodes, context, wire, usable) && GreedyRun(usable, targets, order, steps)
    ensures AllCandidates(H, nodes, context, wire, steps)
    ensures forall t | t in targets && t !in Left(targets, steps) :: t in AllTargets(steps)
  {
    forall i | 0 <= i < |steps|
      ensures IsCandidate(H, nodes, context, wire, steps[i])
    {
      PickedCoversMost(usable, targets, order, steps, i);
    }
    NotLeft(targets, steps);
  }

  lemma {:induction false} NotLeft(targets: set<Address>, steps: seq<PlanStep>)
    ensures forall t | t in targets && t !in Left(targets, steps) :: t in AllTargets(steps)
    decreases |steps|
  {
    if steps != [] {
      NotLeft(targets, steps[..|steps| - 1]);
    }
  }
}
