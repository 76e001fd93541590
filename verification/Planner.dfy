/** Collecting candidate steps: every live anchor is tried with all the targets it covers, and
    selections that do not compile are halved. */
module Planner {
  import opened Outcomes
  import opened Encoding
  import opened Ledger
  import opened Archives
  import opened Candidates

  /** Targets of all steps, in order. */
  function AllTargets(steps: seq<PlanStep>): seq<Address> {
    if steps == [] then [] else AllTargets(steps[..|steps| - 1]) + steps[|steps| - 1].targets
  }

  lemma {:induction false} AllTargetsAppend(steps: seq<PlanStep>, more: seq<PlanStep>)
    ensures AllTargets(steps + more) == AllTargets(steps) + AllTargets(more)
    decreases |more|
  {
    if more == [] {
      assert steps + more == steps;
    } else {
      var n := |more| - 1;
      assert (steps + more)[..|steps| + n] == steps + more[..n];
      AllTargetsAppend(steps, more[..n]);
    }
  }

  lemma {:induction false} InAllTargets(steps: seq<PlanStep>, t: Address)
    ensures t in AllTargets(steps) <==> exists i :: 0 <= i < |steps| && t in steps[i].targets
    decreases |steps|
  {
    if steps != [] {
      var n := |steps| - 1;
      InAllTargets(steps[..n], t);
      if t in AllTargets(steps[..n]) {
        var i :| 0 <= i < n && t in steps[..n][i].targets;
        assert t in steps[i].targets;
      }
      if i :| 0 <= i < |steps| && t in steps[i].targets {
        assert i < n ==> t in steps[..n][i].targets;
      }
    }
  }

  lemma InSteps(steps: seq<PlanStep>, i: nat, t: Address)
    requires i < |steps| && t in steps[i].targets
    ensures t in AllTargets(steps)
  {
    InAllTargets(steps, t);
  }

  // ----- Splitting a selection

  /** Compiles one selection of targets, or fails. */
  type Compiler = seq<Address> -> Result<PlanStep, PlanError>

  function Half(selection: seq<Address>): (r: nat)
    requires |selection| > 1
    ensures 0 < r < |selection|
    ensures 0 <= r - (|selection| - r) <= 1
  {
    (|selection| + 1) / 2
  }

  /** The steps that trying a selection whole, then its halves, yields. */
  function SplitSteps(compile: Compiler, selection: seq<Address>): seq<PlanStep>
    decreases |selection|
  {
    var candidate := compile(selection);
    if candidate.Success? then [candidate.value]
    else if |selection| <= 1 then []
    else
      var half := Half(selection);
      SplitSteps(compile, selection[..half]) + SplitSteps(compile, selection[half..])
  }

  /** The targets that do not even compile alone. */
  function SplitRejected(compile: Compiler, selection: seq<Address>): seq<Address>
    decreases |selection|
  {
    if compile(selection).Success? then []
    else if |selection| <= 1 then selection
    else
      var half := Half(selection);
      SplitRejected(compile, selection[..half]) + SplitRejected(compile, selection[half..])
  }

  /** A selection is split only when it does not compile whole. */
  lemma SplitOnlyOnFailure(compile: Compiler, selection: seq<Address>)
    ensures compile(selection).Success? ==>
              SplitSteps(compile, selection) == [compile(selection).value] && SplitRejected(compile, selection) == []
    ensures |SplitSteps(compile, selection)| > 1 || SplitRejected(compile, selection) != [] ==>
              compile(selection).Failure?
  {
  }

  ghost predicate NamesItsSelection(compile: Compiler) {
    forall s :: compile(s).Success? ==> compile(s).value.targets == s
  }

  ghost predicate Partitions(steps: seq<PlanStep>, rejected: seq<Address>, selection: seq<Address>) {
    multiset(AllTargets(steps)) + multiset(rejected) == multiset(selection)
  }

  lemma HalvesPartition(
    x: seq<PlanStep>, y: seq<PlanStep>, rx: seq<Address>, ry: seq<Address>, a: seq<Address>, b: seq<Address>)
    requires Partitions(x, rx, a) && Partitions(y, ry, b)
    ensures Partitions(x + y, rx + ry, a + b)
  {
    AllTargetsAppend(x, y);
  }

  lemma OneStepTargets(step: PlanStep)
    ensures AllTargets([step]) == step.targets
  {
    assert [step][..0] == [];
  }

  /** One level of the split. */
  lemma SplitUnfolds(compile: Compiler, selection: seq<Address>)
    requires |selection| > 1 && compile(selection).Failure?
    ensures var a, b := selection[..Half(selection)], selection[Half(selection)..];
            && a + b == selection
            && SplitSteps(compile, selection) == SplitSteps(compile, a) + SplitSteps(compile, b)
            && SplitRejected(compile, selection) == SplitRejected(compile, a) + SplitRejected(compile, b)
  {
  }

  lemma {:induction false} SplitIntoParts(compile: Compiler, selection: seq<Address>)
    requires NamesItsSelection(compile)
    ensures Partitions(SplitSteps(compile, selection), SplitRejected(compile, selection), selection)
    decreases |selection|
  {
    if compile(selection).Success? {
      OneStepTargets(compile(selection).value);
    } else if |selection| > 1 {
      var a, b := selection[..Half(selection)], selection[Half(selection)..];
      SplitIntoParts(compile, a);
      SplitIntoParts(compile, b);
      SplitUnfolds(compile, selection);
      HalvesPartition(SplitSteps(compile, a), SplitSteps(compile, b), SplitRejected(compile, a),
                      SplitRejected(compile, b), a, b);
    }
  }

  /** Steps that compile and singletons that do not are together exactly the selection. */
  lemma SplitPartitions(compile: Compiler, selection: seq<Address>)
    requires NamesItsSelection(compile)
    ensures multiset(AllTargets(SplitSteps(compile, selection))) + multiset(SplitRejected(compile, selection))
         == multiset(selection)
  {
    SplitIntoParts(compile, selection);
  }

  lemma {:induction false} SplitCompiles(compile: Compiler, selection: seq<Address>)
    requires selection != [] && NamesItsSelection(compile)
    ensures forall step | step in SplitSteps(compile, selection) ::
              step.targets != [] && compile(step.targets) == Success(step)
    ensures forall t | t in SplitRejected(compile, selection) :: compile([t]).Failure?
    decreases |selection|
  {
    if compile(selection).Failure? {
      if |selection| == 1 {
        assert selection == [selection[0]];
      } else {
        SplitCompiles(compile, selection[..Half(selection)]);
        SplitCompiles(compile, selection[Half(selection)..]);
      }
    }
  }

  predicate NonEmpty(selections: seq<seq<Address>>) {
    forall i | 0 <= i < |selections| :: |selections[i]| > 0
  }

  /** What is left to try: every pending selection may still split into singletons. */
  function SplitWork(selections: seq<seq<Address>>): nat
    requires NonEmpty(selections)
  {
    if selections == [] then 0
    else
      var n := |selections| - 1;
      SplitWork(selections[..n]) + 2 * |selections[n]| - 1
  }

  /** What the pending selections will still yield, the last one first. */
  function PendingSteps(compile: Compiler, selections: seq<seq<Address>>): seq<PlanStep> {
    if selections == [] then []
    else
      var n := |selections| - 1;
      SplitSteps(compile, selections[n]) + PendingSteps(compile, selections[..n])
  }

  function PendingRejected(compile: Compiler, selections: seq<seq<Address>>): seq<Address> {
    if selections == [] then []
    else
      var n := |selections| - 1;
      SplitRejected(compile, selections[n]) + PendingRejected(compile, selections[..n])
  }

  lemma Popped(compile: Compiler, rest: seq<seq<Address>>, selected: seq<Address>)
    requires NonEmpty(rest) && |selected| > 0
    ensures NonEmpty(rest + [selected]) && SplitWork(rest + [selected]) == SplitWork(rest) + 2 * |selected| - 1
    ensures PendingSteps(compile, rest + [selected]) == SplitSteps(compile, selected) + PendingSteps(compile, rest)
    ensures PendingRejected(compile, rest + [selected])
         == SplitRejected(compile, selected) + PendingRejected(compile, rest)
  {
    assert (rest + [selected])[..|rest|] == rest;
  }

  lemma Regrouped<T>(x: seq<T>, y: seq<T>, z: seq<T>)
    ensures x + (y + z) == x + y + z
  {
  }

  lemma BothPending(compile: Compiler, rest: seq<seq<Address>>, a: seq<Address>, b: seq<Address>)
    requires NonEmpty(rest) && |a| > 0 && |b| > 0
    ensures NonEmpty(rest + [b, a]) && SplitWork(rest + [b, a]) == SplitWork(rest) + 2 * |a| + 2 * |b| - 2
    ensures PendingSteps(compile, rest + [b, a])
         == SplitSteps(compile, a) + SplitSteps(compile, b) + PendingSteps(compile, rest)
    ensures PendingRejected(compile, rest + [b, a])
         == SplitRejected(compile, a) + SplitRejected(compile, b) + PendingRejected(compile, rest)
  {
    assert rest + [b, a] == rest + [b] + [a];
    Popped(compile, rest, b);
    Popped(compile, rest + [b], a);
    Regrouped(SplitSteps(compile, a), SplitSteps(compile, b), PendingSteps(compile, rest));
    Regrouped(SplitRejected(compile, a), SplitRejected(compile, b), PendingRejected(compile, rest));
  }

  lemma Halved(compile: Compiler, rest: seq<seq<Address>>, selected: seq<Address>)
    requires NonEmpty(rest) && |selected| > 1 && compile(selected).Failure?
    ensures var halves := rest + [selected[Half(selected)..], selected[..Half(selected)]];
            && NonEmpty(halves) && SplitWork(halves) < SplitWork(rest + [selected])
            && PendingSteps(compile, halves) == SplitSteps(compile, selected) + PendingSteps(compile, rest)
            && PendingRejected(compile, halves) == SplitRejected(compile, selected) + PendingRejected(compile, rest)
  {
    Popped(compile, rest, selected);
    BothPending(compile, rest, selected[..Half(selected)], selected[Half(selected)..]);
    SplitUnfolds(compile, selected);
  }

  /** What has been found so far, followed by what is still to come, is the whole result. */
  ghost predicate OnTrack(
    compile: Compiler, covered: seq<Address>, usable: seq<PlanStep>, rejected: seq<Address>,
    selections: seq<seq<Address>>)
  {
    && usable + PendingSteps(compile, selections) == SplitSteps(compile, covered)
    && rejected + PendingRejected(compile, selections) == SplitRejected(compile, covered)
  }

  lemma Compiled(
    compile: Compiler, covered: seq<Address>, usable: seq<PlanStep>, rejected: seq<Address>,
    rest: seq<seq<Address>>, selected: seq<Address>)
    requires OnTrack(compile, covered, usable, rejected, rest + [selected])
    requires NonEmpty(rest) && |selected| > 0 && compile(selected).Success?
    ensures OnTrack(compile, covered, usable + [compile(selected).value], rejected, rest)
  {
    Popped(compile, rest, selected);
    assert SplitRejected(compile, selected) + PendingRejected(compile, rest) == PendingRejected(compile, rest);
  }

  lemma Rejected(
    compile: Compiler, covered: seq<Address>, usable: seq<PlanStep>, rejected: seq<Address>,
    rest: seq<seq<Address>>, selected: seq<Address>)
    requires OnTrack(compile, covered, usable, rejected, rest + [selected])
    requires NonEmpty(rest) && |selected| == 1 && compile(selected).Failure?
    ensures OnTrack(compile, covered, usable, rejected + selected, rest)
  {
    Popped(compile, rest, selected);
    assert SplitSteps(compile, selected) + PendingSteps(compile, rest) == PendingSteps(compile, rest);
  }

  lemma StillOnTrack(
    compile: Compiler, covered: seq<Address>, usable: seq<PlanStep>, rejected: seq<Address>,
    rest: seq<seq<Address>>, selected: seq<Address>)
    requires OnTrack(compile, covered, usable, rejected, rest + [selected])
    requires NonEmpty(rest) && |selected| > 1 && compile(selected).Failure?
    ensures OnTrack(compile, covered, usable, rejected,
                    rest + [selected[Half(selected)..], selected[..Half(selected)]])
  {
    Popped(compile, rest, selected);
    Halved(compile, rest, selected);
  }

  lemma JustStarted(compile: Compiler, covered: seq<Address>)
    requires covered != []
    ensures OnTrack(compile, covered, [], [], [covered])
  {
    Popped(compile, [], covered);
    assert [] + [covered] == [covered];
    assert PendingSteps(compile, [covered]) == SplitSteps(compile, covered);
    assert PendingRejected(compile, [covered]) == SplitRejected(compile, covered);
  }

  lemma Finished(compile: Compiler, covered: seq<Address>, usable: seq<PlanStep>, rejected: seq<Address>)
    requires OnTrack(compile, covered, usable, rejected, [])
    ensures usable == SplitSteps(compile, covered) && rejected == SplitRejected(compile, covered)
  {
  }

  /** Tries `covered` whole and halves whatever fails, on an explicit stack. */
  method SplitSelections(
    compile: Compiler, covered: seq<Address>) returns (usable: seq<PlanStep>, rejected: seq<Address>)
    requires covered != []
    ensures usable == SplitSteps(compile, covered) && rejected == SplitRejected(compile, covered)
  {
    usable, rejected := [], [];
    var selections := [covered];
    JustStarted(compile, covered);
    while selections != []
      invariant NonEmpty(selections) && OnTrack(compile, covered, usable, rejected, selections)
      decreases SplitWork(selections)
    {
      var rest, selected := selections[..|selections| - 1], selections[|selections| - 1];
      assert selections == rest + [selected];
      Popped(compile, rest, selected);
      var candidate := compile(selected);
      if candidate.Success? {
        Compiled(compile, covered, usable, rejected, rest, selected);
        usable, selections := usable + [candidate.value], rest;
      } else if |selected| == 1 {
        Rejected(compile, covered, usable, rejected, rest, selected);
        rejected, selections := rejected + selected, rest;
      } else {
        Halved(compile, rest, selected);
        StillOnTrack(compile, covered, usable, rejected, rest, selected);
        var half := Half(selected);
        selections := rest + [selected[half..], selected[..half]];
      }
    }
    Finished(compile, covered, usable, rejected);
  }

  // ----- Candidates of one anchor

  ghost predicate AllCandidates(H: Hasher, nodes: Nodes, context: Context, wire: Wire, steps: seq<PlanStep>) {
    forall i | 0 <= i < |steps| :: IsCandidate(H, nodes, context, wire, steps[i])
  }

  lemma CandidatesPrefix(H: Hasher, nodes: Nodes, context: Context, wire: Wire, steps: seq<PlanStep>, n: nat)
    requires AllCandidates(H, nodes, context, wire, steps) && n <= |steps|
    ensures AllCandidates(H, nodes, context, wire, steps[..n])
  {
  }

  /** No target that `anchor` can restore alone is missing from the steps. */
  ghost predicate Keeps(H: Hasher, nodes: Nodes, context: Context, wire: Wire, anchor: Address, steps: seq<PlanStep>) {
    forall t | t in context.targets && Restorable(H, nodes, context, wire, anchor, t) :: t in AllTargets(steps)
  }

  function CoveredBy(closure: seq<Address>, targets: seq<Address>): (r: seq<Address>)
    ensures forall t :: t in r <==> t in targets && t in closure
  {
    Filter(t => t in closure, targets)
  }

  function CompilerAt(
    H: Hasher, nodes: Nodes, context: Context, wire: Wire, anchor: Address, closure: seq<Address>): Compiler
  {
    selected => CompileCandidate(H, nodes, context, wire, anchor, closure, selected)
  }

  /** Everything that trying one anchor yields. */
  function UsableAt(H: Hasher, nodes: Nodes, context: Context, wire: Wire, anchor: Address): seq<PlanStep> {
    if !LiveAnchor(nodes, context, anchor) || Closure(nodes, anchor).None? then []
    else
      var closure := Closure(nodes, anchor).value;
      var covered := CoveredBy(closure, context.targets);
      if covered == [] then [] else SplitSteps(CompilerAt(H, nodes, context, wire, anchor, closure), covered)
  }

  lemma CompilerNamesItsSelection(
    H: Hasher, nodes: Nodes, context: Context, wire: Wire, anchor: Address, closure: seq<Address>)
    ensures NamesItsSelection(CompilerAt(H, nodes, context, wire, anchor, closure))
  {
  }

  /** An anchor's usable steps are candidates and lose no target it can restore alone. */
  lemma UsableAreCandidates(H: Hasher, nodes: Nodes, context: Context, wire: Wire, anchor: Address)
    ensures AllCandidates(H, nodes, context, wire, UsableAt(H, nodes, context, wire, anchor))
    ensures Keeps(H, nodes, context, wire, anchor, UsableAt(H, nodes, context, wire, anchor))
  {
    if LiveAnchor(nodes, context, anchor) && Closure(nodes, anchor).Some? {
      var closure := Closure(nodes, anchor).value;
      var covered, compile := CoveredBy(closure, context.targets), CompilerAt(H, nodes, context, wire, anchor, closure);
      if covered != [] {
        CompilerNamesItsSelection(H, nodes, context, wire, anchor, closure);
        SplitCompiles(compile, covered);
        SplitPartitions(compile, covered);
        CompiledAreCandidates(H, nodes, context, wire, anchor, SplitSteps(compile, covered));
        SplitKeeps(H, nodes, context, wire, anchor, SplitSteps(compile, covered), SplitRejected(compile, covered));
      }
    }
  }

  lemma CompiledAreCandidates(
    H: Hasher, nodes: Nodes, context: Context, wire: Wire, anchor: Address, steps: seq<PlanStep>)
    requires LiveAnchor(nodes, context, anchor) && Closure(nodes, anchor).Some?
    requires forall step | step in steps ::
               step.targets != []
               && CompilerAt(H, nodes, context, wire, anchor, Closure(nodes, anchor).value)(step.targets)
                  == Success(step)
    ensures AllCandidates(H, nodes, context, wire, steps)
  {
    forall i | 0 <= i < |steps|
      ensures IsCandidate(H, nodes, context, wire, steps[i])
    {
      assert steps[i] in steps && steps[i].anchor == anchor;
    }
  }

  lemma SplitKeeps(
    H: Hasher, nodes: Nodes, context: Context, wire: Wire, anchor: Address, steps: seq<PlanStep>,
    rejected: seq<Address>)
    requires Closure(nodes, anchor).Some?
    requires multiset(AllTargets(steps)) + multiset(rejected)
          == multiset(CoveredBy(Closure(nodes, anchor).value, context.targets))
    requires forall t | t in rejected ::
               CompilerAt(H, nodes, context, wire, anchor, Closure(nodes, anchor).value)([t]).Failure?
    ensures Keeps(H, nodes, context, wire, anchor, steps)
  {
    forall t | t in context.targets && Restorable(H, nodes, context, wire, anchor, t)
      ensures t in AllTargets(steps)
    {
      assert t in multiset(CoveredBy(Closure(nodes, anchor).value, context.targets));
      assert t in multiset(AllTargets(steps)) || t in multiset(rejected);
    }
  }

  method CandidatesAt(H: Hasher, nodes: Nodes, context: Context, wire: Wire, anchor: Address)
    returns (usable: seq<PlanStep>, rejected: seq<Address>)
    ensures usable == UsableAt(H, nodes, context, wire, anchor)
  {
    usable, rejected := [], [];
    if !LiveAnchor(nodes, context, anchor) {
      return;
    }
    var w := StackWalk.DependencyOrder(GraphOfNodes(nodes), [anchor], true);
    if !w.Done? {
      return;
    }
    var covered := CoveredBy(w.order, context.targets);
    if covered != [] {
      usable, rejected := SplitSelections(CompilerAt(H, nodes, context, wire, anchor, w.order), covered);
    }
  }

  // ----- Candidates of all anchors

  /** The steps are exactly those of the anchors, whatever order the anchors were tried in. */
  ghost predicate Collected(
    H: Hasher, nodes: Nodes, context: Context, wire: Wire, anchors: set<Address>, usable: seq<PlanStep>)
  {
    forall step :: step in usable <==> exists a :: a in anchors && step in UsableAt(H, nodes, context, wire, a)
  }

  lemma CollectedMore(
    H: Hasher, nodes: Nodes, context: Context, wire: Wire, anchors: set<Address>, usable: seq<PlanStep>,
    anchor: Address)
    requires Collected(H, nodes, context, wire, anchors, usable)
    ensures Collected(H, nodes, context, wire, anchors + {anchor}, usable + UsableAt(H, nodes, context, wire, anchor))
  {
  }

  method CollectCandidates(H: Hasher, nodes: Nodes, context: Context, wire: Wire, anchors: seq<Address>)
    returns (usable: seq<PlanStep>)
    ensures Collected(H, nodes, context, wire, Elements(anchors), usable)
  {
    usable := [];
    for i := 0 to |anchors|
      invariant Collected(H, nodes, context, wire, Elements(anchors[..i]), usable)
    {
      var more, rejected := CandidatesAt(H, nodes, context, wire, anchors[i]);
      CollectedMore(H, nodes, context, wire, Elements(anchors[..i]), usable, anchors[i]);
      assert Elements(anchors[..i + 1]) == Elements(anchors[..i]) + {anchors[i]};
      usable := usable + more;
    }
    assert anchors[..|anchors|] == anchors;
  }

  /** Collected steps are candidates, and no target that a tried anchor can restore is lost. */
  lemma CollectedAreCandidates(
    H: Hasher, nodes: Nodes, context: Context, wire: Wire, anchors: set<Address>, usable: seq<PlanStep>)
    requires Collected(H, nodes, context, wire, anchors, usable)
    ensures AllCandidates(H, nodes, context, wire, usable)
    ensures forall a | a in anchors :: Keeps(H, nodes, context, wire, a, usable)
  {
    forall i | 0 <= i < |usable|
      ensures IsCandidate(H, nodes, context, wire, usable[i])
    {
      assert usable[i] in usable;
      var a :| a in anchors && usable[i] in UsableAt(H, nodes, context, wire, a);
      UsableAreCandidates(H, nodes, context, wire, a);
    }
    forall a | a in anchors
      ensures Keeps(H, nodes, context, wire, a, usable)
    {
      UsableAreCandidates(H, nodes, context, wire, a);
      CollectedKeep(H, nodes, context, wire, a, UsableAt(H, nodes, context, wire, a), usable);
    }
  }

  lemma CollectedKeep(
    H: Hasher, nodes: Nodes, context: Context, wire: Wire, anchor: Address, some: seq<PlanStep>, all: seq<PlanStep>)
    requires Keeps(H, nodes, context, wire, anchor, some) && forall step | step in some :: step in all
    ensures Keeps(H, nodes, context, wire, anchor, all)
  {
    forall t | t in AllTargets(some)
      ensures t in AllTargets(all)
    {
      InAllTargets(some, t);
      var i :| 0 <= i < |some| && t in some[i].targets;
      assert some[i] in some;
      var j :| 0 <= j < |all| && all[j] == some[i];
      InSteps(all, j, t);
    }
  }
}
