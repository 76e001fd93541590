/** Parsing a restore proof: distinct identities, declared dependencies, and a dependency-first
    order found by an iterative depth-first walk from entry 0. */
module ProofGraph {
  import opened Outcomes
  import opened Encoding
  import opened Records
  import opened Errors
  import opened DependencyWalk

  type Dependencies = seq<Digest>

  function ProofIds(H: Hasher, proof: seq<Link>): (ids: seq<Digest>)
    ensures |ids| == |proof|
    ensures forall i | 0 <= i < |proof| :: ids[i] == proof[i].record.Id(H)
  {
    seq(|proof|, i requires 0 <= i < |proof| => proof[i].record.Id(H))
  }

  function LinkDependencies(H: Hasher, link: Link): Result<Dependencies, Error> {
    match (link.record.source, link.params)
    case (Raw, None) => Success([])
    case (Raw, Some(RawParams(_))) => Success([])
    case (Account(_), Some(AccountParams(_))) => Success([])
    case (Branch(previous, _, _), Some(BranchParams(_))) => Success([previous])
    case (Batch(members), Some(BatchParams(fingerprints))) =>
      if members == [] || fingerprints == [] then Failure(BatchMembersEmpty)
      else if !Distinct(members) then Failure(BatchMemberDuplicate)
      else Success(members)
    case (Pack, Some(PackParams(fingerprints))) =>
      if fingerprints == [] then Failure(RestorePackMembersMissing) else Success(Ids(H, fingerprints))
    case _ => Failure(RestoreProofMismatch)
  }

  /** The dependencies of every entry, or the first entry's error. */
  function AllDependencies(H: Hasher, proof: seq<Link>): (r: Result<seq<Dependencies>, Error>)
    ensures r.Success? <==> forall i | 0 <= i < |proof| :: LinkDependencies(H, proof[i]).Success?
    ensures r.Success? ==> |r.value| == |proof|
    ensures r.Success? ==> forall i | 0 <= i < |proof| :: LinkDependencies(H, proof[i]) == Success(r.value[i])
  {
    if proof == [] then Success([])
    else
      var init := AllDependencies(H, proof[..|proof| - 1]);
      if init.Failure? then init
      else
        var last := LinkDependencies(H, proof[|proof| - 1]);
        if last.Failure? then Failure(last.error) else Success(init.value + [last.value])
  }

  function IndexOf<T(==)>(s: seq<T>, x: T): (i: nat)
    requires x in s
    ensures i < |s| && s[i] == x
  {
    if s[0] == x then 0 else 1 + IndexOf(s[1..], x)
  }

  /** The dependency graph over canonical identities. */
  function GraphOf(ids: seq<Digest>, dependencies: seq<Dependencies>): Graph<Digest>
    requires |ids| == |dependencies|
  {
    map id | id in ids :: Some(dependencies[IndexOf(ids, id)])
  }

  function Positions(ids: seq<Digest>, order: seq<Digest>): (r: seq<nat>)
    requires forall x | x in order :: x in ids
    ensures |r| == |order|
    ensures forall k | 0 <= k < |r| :: r[k] < |ids| && ids[r[k]] == order[k]
  {
    seq(|order|, k requires 0 <= k < |order| => assert order[k] in order; IndexOf(ids, order[k]))
  }

  /** The dependency-first order of a proof, as entry indices. */
  function Parse(H: Hasher, proof: seq<Link>): Result<seq<nat>, Error> {
    if proof == [] then Failure(RestoreChainTooShort)
    else
      var ids := ProofIds(H, proof);
      if !Distinct(ids) then Failure(RestoreProofDuplicate)
      else
        var dependencies :- AllDependencies(H, proof);
        OrderFrom(ids, dependencies)
  }

  /** The post-order of the walk from entry 0, which must reach every entry. */
  function OrderFrom(ids: seq<Digest>, dependencies: seq<Dependencies>): Result<seq<nat>, Error>
    requires 0 < |ids| == |dependencies|
  {
    var g := GraphOf(ids, dependencies);
    VisitedAreEntries(g, ids);
    Conclude(ids, Visit(g, ids[0], {}, [], true))
  }

  function Conclude(ids: seq<Digest>, w: Walk<Digest>): Result<seq<nat>, Error>
    requires w.Done? ==> forall x | x in w.order :: x in ids
  {
    match w
    case Missing(_) => Failure(RestoreDependencyMissing)
    case Done(order) => if |order| != |ids| then Failure(RestoreProofMismatch) else Success(Positions(ids, order))
    case _ => Failure(RestoreProofMismatch)
  }

  lemma VisitedAreEntries(g: Graph<Digest>, ids: seq<Digest>)
    requires ids != [] && g.Keys == Elements(ids)
    ensures var w := Visit(g, ids[0], {}, [], true);
            w.Done? ==> Distinct(w.order) && forall x | x in w.order :: x in ids
  {
    if Visit(g, ids[0], {}, [], true).Done? {
      VisitSound(g, ids[0], {}, [], true);
    }
  }

  // ----- The iterative walk

  datatype Frame = Frame(index: nat, offset: nat)

  ghost predicate FramesIn(stack: seq<Frame>, ids: seq<Digest>, dependencies: seq<Dependencies>)
    requires |ids| == |dependencies|
  {
    forall k | 0 <= k < |stack| :: stack[k].index < |ids| && stack[k].offset <= |dependencies[stack[k].index]|
  }

  /** What the walk still has to do, read off the frame stack (innermost frame last). */
  ghost function Finish(
    g: Graph<Digest>, ids: seq<Digest>, dependencies: seq<Dependencies>, stack: seq<Frame>,
    active: set<Digest>, order: seq<Digest>): Walk<Digest>
    requires |ids| == |dependencies| && FramesIn(stack, ids, dependencies)
    decreases |stack|, 0
  {
    if stack == [] then Done(order)
    else
      var rest, top := stack[..|stack| - 1], stack[|stack| - 1];
      var w := VisitAll(g, dependencies[top.index][top.offset..], active, order, true);
      FinishAfter(g, ids, dependencies, rest, active - {ids[top.index]}, Append(w, ids[top.index]))
  }

  ghost function FinishAfter(
    g: Graph<Digest>, ids: seq<Digest>, dependencies: seq<Dependencies>, stack: seq<Frame>,
    active: set<Digest>, w: Walk<Digest>): Walk<Digest>
    requires |ids| == |dependencies| && FramesIn(stack, ids, dependencies)
    decreases |stack|, 1
  {
    if w.Done? then Finish(g, ids, dependencies, stack, active, w.order) else w
  }

  /** `g` maps each entry's identity to that entry's dependencies. */
  ghost predicate Represents(g: Graph<Digest>, ids: seq<Digest>, dependencies: seq<Dependencies>) {
    && |ids| == |dependencies| && Distinct(ids)
    && g.Keys == Elements(ids)
    && forall i | 0 <= i < |ids| :: g[ids[i]] == Some(dependencies[i])
  }

  lemma GraphRepresents(ids: seq<Digest>, dependencies: seq<Dependencies>)
    requires |ids| == |dependencies| && Distinct(ids)
    ensures Represents(GraphOf(ids, dependencies), ids, dependencies)
  {
    forall i | 0 <= i < |ids|
      ensures IndexOf(ids, ids[i]) == i
    {
    }
  }

  lemma FinishPopped(
    g: Graph<Digest>, ids: seq<Digest>, dependencies: seq<Dependencies>, stack: seq<Frame>,
    active: set<Digest>, order: seq<Digest>)
    requires |ids| == |dependencies| && FramesIn(stack, ids, dependencies) && stack != []
    requires stack[|stack| - 1].offset == |dependencies[stack[|stack| - 1].index]|
    ensures var v := ids[stack[|stack| - 1].index];
            Finish(g, ids, dependencies, stack, active, order)
            == Finish(g, ids, dependencies, stack[..|stack| - 1], active - {v}, order + [v])
  {
  }

  function Advanced(stack: seq<Frame>): seq<Frame>
    requires stack != []
  {
    var top := stack[|stack| - 1];
    stack[..|stack| - 1] + [Frame(top.index, top.offset + 1)]
  }

  /** Advancing past a dependency unfolds the recursive walk once. */
  lemma FinishAdvanced(
    g: Graph<Digest>, ids: seq<Digest>, dependencies: seq<Dependencies>, stack: seq<Frame>,
    active: set<Digest>, order: seq<Digest>)
    requires |ids| == |dependencies| && FramesIn(stack, ids, dependencies) && stack != []
    requires stack[|stack| - 1].offset < |dependencies[stack[|stack| - 1].index]|
    ensures FramesIn(Advanced(stack), ids, dependencies)
    ensures var top := stack[|stack| - 1];
            var w := Visit(g, dependencies[top.index][top.offset], active, order, true);
            Finish(g, ids, dependencies, stack, active, order)
            == FinishAfter(g, ids, dependencies, Advanced(stack), active, w)
  {
    var top, advanced := stack[|stack| - 1], Advanced(stack);
    assert advanced[..|advanced| - 1] == stack[..|stack| - 1];
    assert dependencies[top.index][top.offset..][1..] == dependencies[top.index][top.offset + 1..];
  }

  lemma FinishSkipped(
    g: Graph<Digest>, ids: seq<Digest>, dependencies: seq<Dependencies>, stack: seq<Frame>,
    active: set<Digest>, order: seq<Digest>)
    requires |ids| == |dependencies| && FramesIn(stack, ids, dependencies) && stack != []
    requires stack[|stack| - 1].offset < |dependencies[stack[|stack| - 1].index]|
    requires dependencies[stack[|stack| - 1].index][stack[|stack| - 1].offset] in order
    ensures FramesIn(Advanced(stack), ids, dependencies)
    ensures Finish(g, ids, dependencies, stack, active, order)
         == Finish(g, ids, dependencies, Advanced(stack), active, order)
  {
    FinishAdvanced(g, ids, dependencies, stack, active, order);
  }

  lemma FinishRejected(
    g: Graph<Digest>, ids: seq<Digest>, dependencies: seq<Dependencies>, stack: seq<Frame>,
    active: set<Digest>, order: seq<Digest>)
    requires |ids| == |dependencies| && FramesIn(stack, ids, dependencies) && stack != []
    requires stack[|stack| - 1].offset < |dependencies[stack[|stack| - 1].index]|
    requires var d := dependencies[stack[|stack| - 1].index][stack[|stack| - 1].offset];
             d !in order && (d in active || d !in g)
    ensures var d := dependencies[stack[|stack| - 1].index][stack[|stack| - 1].offset];
            Finish(g, ids, dependencies, stack, active, order) == if d in active then Cycle(d) else Missing(d)
  {
    FinishAdvanced(g, ids, dependencies, stack, active, order);
  }

  /** Entering an unvisited dependency: its own frame is pushed above the advanced one. */
  lemma FinishPushed(
    g: Graph<Digest>, ids: seq<Digest>, dependencies: seq<Dependencies>, stack: seq<Frame>,
    active: set<Digest>, order: seq<Digest>, index: nat)
    requires Represents(g, ids, dependencies) && FramesIn(stack, ids, dependencies) && stack != []
    requires stack[|stack| - 1].offset < |dependencies[stack[|stack| - 1].index]|
    requires index < |ids| && dependencies[stack[|stack| - 1].index][stack[|stack| - 1].offset] == ids[index]
    requires ids[index] !in order && ids[index] !in active
    ensures FramesIn(Advanced(stack) + [Frame(index, 0)], ids, dependencies)
    ensures Finish(g, ids, dependencies, stack, active, order)
         == Finish(g, ids, dependencies, Advanced(stack) + [Frame(index, 0)], active + {ids[index]}, order)
  {
    FinishAdvanced(g, ids, dependencies, stack, active, order);
    FinishEntered(g, ids, dependencies, Advanced(stack), index, active, order);
  }

  lemma FinishEntered(
    g: Graph<Digest>, ids: seq<Digest>, dependencies: seq<Dependencies>, stack: seq<Frame>, index: nat,
    active: set<Digest>, order: seq<Digest>)
    requires Represents(g, ids, dependencies) && FramesIn(stack, ids, dependencies)
    requires index < |ids| && ids[index] !in order && ids[index] !in active
    ensures FramesIn(stack + [Frame(index, 0)], ids, dependencies)
    ensures Finish(g, ids, dependencies, stack + [Frame(index, 0)], active + {ids[index]}, order)
         == FinishAfter(g, ids, dependencies, stack, active, Visit(g, ids[index], active, order, true))
  {
    assert (stack + [Frame(index, 0)])[..|stack|] == stack;
    assert dependencies[index][0..] == dependencies[index];
    assert active + {ids[index]} - {ids[index]} == active;
  }

  lemma {:induction false} CardinalityOfDistinct<T>(s: seq<T>)
    requires Distinct(s)
    ensures |Elements(s)| == |s|
  {
    if s != [] {
      var n := |s| - 1;
      CardinalityOfDistinct(s[..n]);
      assert Elements(s) == Elements(s[..n]) + {s[n]};
    }
  }

  method UniqueMembers(members: seq<Digest>) returns (ok: bool)
    ensures ok == Distinct(members)
  {
    var unique: set<Digest> := {};
    for i := 0 to |members|
      invariant unique == Elements(members[..i]) && Distinct(members[..i])
    {
      if members[i] in unique {
        var j :| 0 <= j < i && members[j] == members[i];
        return false;
      }
      unique := unique + {members[i]};
      assert members[..i + 1] == members[..i] + [members[i]];
    }
    assert members[..|members|] == members;
    return true;
  }

  method ProofDependencies(H: Hasher, link: Link) returns (r: Result<Dependencies, Error>)
    ensures r == LinkDependencies(H, link)
  {
    match (link.record.source, link.params) {
      case (Batch(members), Some(BatchParams(fingerprints))) =>
        if members == [] || fingerprints == [] {
          return Failure(BatchMembersEmpty);
        }
        var unique := UniqueMembers(members);
        r := if unique then Success(members) else Failure(BatchMemberDuplicate);
      case _ =>
        r := LinkDependencies(H, link);
    }
  }

  /** Identities and their positions, or a repeated identity. */
  method IndexEntries(H: Hasher, proof: seq<Link>)
    returns (distinct: bool, ids: seq<Digest>, canonicalToIndex: map<Digest, nat>)
    ensures distinct <==> Distinct(ProofIds(H, proof))
    ensures distinct ==>
              && ids == ProofIds(H, proof) && canonicalToIndex.Keys == Elements(ids)
              && forall k | 0 <= k < |ids| :: canonicalToIndex[ids[k]] == k
  {
    ids, canonicalToIndex := [], map[];
    for i := 0 to |proof|
      invariant ids == ProofIds(H, proof)[..i] && Distinct(ids)
      invariant canonicalToIndex.Keys == Elements(ids)
      invariant forall k | 0 <= k < i :: canonicalToIndex[ids[k]] == k
    {
      var canonical := proof[i].record.Id(H);
      if canonical in canonicalToIndex {
        ghost var j :| 0 <= j < i && ids[j] == canonical;
        assert ProofIds(H, proof)[j] == ProofIds(H, proof)[i];
        return false, ids, canonicalToIndex;
      }
      canonicalToIndex := canonicalToIndex[canonical := i];
      ids := ids + [canonical];
    }
    distinct := true;
  }

  method CollectDependencies(H: Hasher, proof: seq<Link>) returns (r: Result<seq<Dependencies>, Error>)
    ensures r == AllDependencies(H, proof)
  {
    var dependencies: seq<Dependencies> := [];
    for i := 0 to |proof|
      invariant AllDependencies(H, proof[..i]) == Success(dependencies)
    {
      var own := ProofDependencies(H, proof[i]);
      assert proof[..i + 1][..i] == proof[..i];
      if own.Failure? {
        DependenciesFailAt(H, proof, i);
        return Failure(own.error);
      }
      dependencies := dependencies + [own.value];
    }
    assert proof[..|proof|] == proof;
    r := Success(dependencies);
  }

  method BuildProofGraph(H: Hasher, proof: seq<Link>) returns (r: Result<seq<nat>, Error>)
    ensures r == Parse(H, proof)
  {
    if |proof| == 0 {
      return Failure(RestoreChainTooShort);
    }
    var distinct, ids, canonicalToIndex := IndexEntries(H, proof);
    if !distinct {
      return Failure(RestoreProofDuplicate);
    }
    var dependencies := CollectDependencies(H, proof);
    if dependencies.Failure? {
      return Failure(dependencies.error);
    }
    GraphRepresents(ids, dependencies.value);
    r := WalkProof(ids, canonicalToIndex, dependencies.value, GraphOf(ids, dependencies.value));
  }

  lemma {:induction false} DependenciesFailAt(H: Hasher, proof: seq<Link>, i: nat)
    requires i < |proof| && AllDependencies(H, proof[..i]).Success? && LinkDependencies(H, proof[i]).Failure?
    ensures AllDependencies(H, proof) == Failure(LinkDependencies(H, proof[i]).error)
    decreases |proof|
  {
    var n := |proof| - 1;
    assert proof[..n][..i] == proof[..i];
    if i < n {
      DependenciesFailAt(H, proof[..n], i);
    }
  }

  lemma ElementsAppend<T>(s: seq<T>, x: T)
    ensures Elements(s + [x]) == Elements(s) + {x}
  {
  }

  lemma StartedOne<T>(all: set<T>, visiting: set<T>, visited: set<T>, v: T)
    requires v in all && v !in visiting && v !in visited
    ensures all - (visiting + {v}) - visited < all - visiting - visited
  {
    assert v in all - visiting - visited;
  }

  lemma FinishedOne<T>(all: set<T>, visiting: set<T>, visited: set<T>, v: T)
    ensures all - (visiting - {v}) - (visited + {v}) <= all - visiting - visited
  {
  }

  lemma PositionsUnique(ids: seq<Digest>, order: seq<Digest>, positions: seq<nat>)
    requires Distinct(ids) && |positions| == |order|
    requires forall k | 0 <= k < |order| :: positions[k] < |ids| && ids[positions[k]] == order[k]
    ensures forall x | x in order :: x in ids
    ensures Positions(ids, order) == positions
  {
  }

  method WalkProof(
    ids: seq<Digest>, canonicalToIndex: map<Digest, nat>, dependencies: seq<Dependencies>, ghost g: Graph<Digest>)
    returns (r: Result<seq<nat>, Error>)
    requires ids != [] && Represents(g, ids, dependencies)
    requires canonicalToIndex.Keys == Elements(ids)
    requires forall k | 0 <= k < |ids| :: canonicalToIndex[ids[k]] == k
    ensures var w := Visit(g, ids[0], {}, [], true);
            (w.Done? ==> forall x | x in w.order :: x in ids) && r == Conclude(ids, w)
  {
    VisitedAreEntries(g, ids);
    ghost var outcome := Visit(g, ids[0], {}, [], true);
    ghost var order: seq<Digest> := [];
    var visited: set<Digest>, visiting: set<Digest>, orderedIndices: seq<nat> := {}, {}, [];
    var stack := [Frame(0, 0)];
    FinishEntered(g, ids, dependencies, [], 0, {}, []);
    visiting := visiting + {ids[0]};
    assert [] + [Frame(0, 0)] == stack;
    while |stack| > 0
      invariant FramesIn(stack, ids, dependencies)
      invariant |order| == |orderedIndices|
      invariant forall k | 0 <= k < |order| :: orderedIndices[k] < |ids| && ids[orderedIndices[k]] == order[k]
      invariant visited == Elements(order) && visiting <= Elements(ids)
      invariant Finish(g, ids, dependencies, stack, visiting, order) == outcome
      decreases g.Keys - visiting - visited, |stack|,
                if |stack| == 0 then 0
                else |dependencies[stack[|stack| - 1].index]| - stack[|stack| - 1].offset
    {
      var frame := stack[|stack| - 1];
      var deps := dependencies[frame.index];
      if frame.offset < |deps| {
        var dependency := deps[frame.offset];
        if dependency in visited {
          FinishSkipped(g, ids, dependencies, stack, visiting, order);
          stack := Advanced(stack);
          continue;
        }
        if dependency !in canonicalToIndex {
          FinishRejected(g, ids, dependencies, stack, visiting, order);
          return Failure(RestoreDependencyMissing);
        }
        if dependency in visiting {
          FinishRejected(g, ids, dependencies, stack, visiting, order);
          return Failure(RestoreProofMismatch);
        }
        var index := canonicalToIndex[dependency];
        FinishPushed(g, ids, dependencies, stack, visiting, order, index);
        StartedOne(g.Keys, visiting, visited, dependency);
        visiting := visiting + {dependency};
        stack := Advanced(stack) + [Frame(index, 0)];
        continue;
      }
      FinishPopped(g, ids, dependencies, stack, visiting, order);
      stack := stack[..|stack| - 1];
      var completed := ids[frame.index];
      FinishedOne(g.Keys, visiting, visited, completed);
      visiting := visiting - {completed};
      visited := visited + {completed};
      orderedIndices := orderedIndices + [frame.index];
      ElementsAppend(order, completed);
      order := order + [completed];
    }
    CardinalityOfDistinct(order);
    if |visited| != |ids| || |orderedIndices| != |ids| {
      return Failure(RestoreProofMismatch);
    }
    PositionsUnique(ids, order, orderedIndices);
    r := Success(orderedIndices);
  }
}
