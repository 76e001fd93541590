/** Merging archives is a least upper bound: matching records may gain missing witnesses and
    the union may gain nodes, but nothing is ever replaced. */
module Merging {
  import opened Outcomes
  import opened Encoding
  import opened Ledger
  import opened DependencyWalk
  import opened Archives

  // ----- The order: the same cores, possibly more nodes and witnesses

  predicate Extends<T(==)>(less: Option<T>, more: Option<T>) {
    less.Some? ==> more == less
  }

  predicate NodeLeq(less: Node, more: Node) {
    less.record == more.record && Extends(less.members, more.members) && Extends(less.snapshot, more.snapshot)
  }

  predicate NodesLeq(less: Nodes, more: Nodes) {
    less.Keys <= more.Keys && forall pda | pda in less :: NodeLeq(less[pda], more[pda])
  }

  predicate Leq(less: Archive, more: Archive) {
    less.programId == more.programId && NodesLeq(less.nodes, more.nodes)
  }

  lemma LeqAntisymmetric(a: Archive, b: Archive)
    requires Leq(a, b) && Leq(b, a)
    ensures a == b
  {
    assert a.nodes.Keys == b.nodes.Keys;
    forall pda | pda in a.nodes
      ensures a.nodes[pda] == b.nodes[pda]
    {
      assert NodeLeq(a.nodes[pda], b.nodes[pda]) && NodeLeq(b.nodes[pda], a.nodes[pda]);
    }
  }

  lemma LeqTransitive(a: Archive, b: Archive, c: Archive)
    requires Leq(a, b) && Leq(b, c)
    ensures Leq(a, c)
  {
    forall pda | pda in a.nodes
      ensures NodeLeq(a.nodes[pda], c.nodes[pda])
    {
      assert NodeLeq(a.nodes[pda], b.nodes[pda]) && NodeLeq(b.nodes[pda], c.nodes[pda]);
    }
  }

  // ----- Validity is downward closed

  lemma EdgesGrow(less: Nodes, more: Nodes, u: Address, d: Address)
    requires NodesLeq(less, more) && d in Dependencies(GraphOfNodes(less), u)
    ensures d in Dependencies(GraphOfNodes(more), u)
  {
    assert NodeLeq(less[u], more[u]);
  }

  lemma DependsOnGrows(less: Nodes, more: Nodes, a: Address, b: Address)
    requires NodesLeq(less, more) && DependsOn(GraphOfNodes(less), a, b)
    ensures DependsOn(GraphOfNodes(more), a, b)
  {
    var p :| Connects(GraphOfNodes(less), p, a, b) && |p| >= 2;
    forall i | 0 <= i < |p| - 1
      ensures p[i + 1] in Dependencies(GraphOfNodes(more), p[i])
    {
      EdgesGrow(less, more, p[i], p[i + 1]);
    }
    assert Connects(GraphOfNodes(more), p, a, b);
  }

  lemma AcyclicDownward(less: Nodes, more: Nodes)
    requires NodesLeq(less, more) && Acyclic(more)
    ensures Acyclic(less)
  {
    forall pda
      ensures !DependsOn(GraphOfNodes(less), pda, pda)
    {
      if DependsOn(GraphOfNodes(less), pda, pda) {
        DependsOnGrows(less, more, pda, pda);
      }
    }
  }

  lemma CommittedDownward(H: Hasher, less: Nodes, more: Nodes, pda: Address)
    requires NodesLeq(less, more) && pda in less && NodeCommitted(H, more, more[pda])
    ensures NodeCommitted(H, less, less[pda])
  {
    var node := less[pda];
    assert NodeLeq(node, more[pda]);
    if node.record.source.Branch? && HashPda(node.record.source.previousHashId) in less {
      assert NodeLeq(less[HashPda(node.record.source.previousHashId)],
                     more[HashPda(node.record.source.previousHashId)]);
    }
    var dependencies := NodeDependencies(node);
    if dependencies.Some? && AllPresent(less, dependencies.value) {
      forall i | 0 <= i < |dependencies.value|
        ensures dependencies.value[i] in less
        ensures less[dependencies.value[i]].record == more[dependencies.value[i]].record
      {
        assert dependencies.value[i] in dependencies.value;
        assert NodeLeq(less[dependencies.value[i]], more[dependencies.value[i]]);
      }
      assert RecordsAt(less, dependencies.value) == RecordsAt(more, dependencies.value);
    }
  }

  /** Whatever a valid archive contains is itself valid. */
  lemma ValidDownward(H: Hasher, less: Archive, more: Archive)
    requires Leq(less, more) && ValidArchive(H, more)
    ensures ValidArchive(H, less)
  {
    AcyclicDownward(less.nodes, more.nodes);
    KeysBound(less.nodes, more.nodes);
    forall pda | pda in less.nodes
      ensures WellFormedNode(H, pda, less.nodes[pda]) && NodeCommitted(H, less.nodes, less.nodes[pda])
    {
      assert NodeLeq(less.nodes[pda], more.nodes[pda]) && WellFormedNode(H, pda, more.nodes[pda]);
      CommittedDownward(H, less.nodes, more.nodes, pda);
    }
  }

  lemma KeysBound(less: Nodes, more: Nodes)
    requires less.Keys <= more.Keys
    ensures |less| <= |more|
  {
    assert |less| == |less.Keys| && |more| == |more.Keys|;
    assert more.Keys == less.Keys + (more.Keys - less.Keys);
  }

  // ----- Joining

  predicate Compatible(previous: Node, node: Node) {
    && previous.record == node.record
    && (previous.members.Some? && node.members.Some? ==> previous.members == node.members)
    && (previous.snapshot.Some? && node.snapshot.Some? ==> previous.snapshot == node.snapshot)
  }

  function OrElse<T>(first: Option<T>, second: Option<T>): Option<T> {
    if first.Some? then first else second
  }

  function JoinNode(previous: Node, node: Node): Node {
    Node(previous.record, OrElse(previous.members, node.members), OrElse(previous.snapshot, node.snapshot))
  }

  predicate CompatibleNodes(a: Nodes, b: Nodes) {
    forall pda | pda in a && pda in b :: Compatible(a[pda], b[pda])
  }

  function JoinNodes(a: Nodes, b: Nodes): Nodes {
    map pda | pda in a.Keys + b.Keys ::
      if pda !in a then b[pda] else if pda !in b then a[pda] else JoinNode(a[pda], b[pda])
  }

  lemma JoinIsLeast(a: Nodes, b: Nodes)
    ensures CompatibleNodes(a, b) ==> NodesLeq(a, JoinNodes(a, b)) && NodesLeq(b, JoinNodes(a, b))
    ensures forall c | NodesLeq(a, c) && NodesLeq(b, c) :: CompatibleNodes(a, b) && NodesLeq(JoinNodes(a, b), c)
  {
    forall c | NodesLeq(a, c) && NodesLeq(b, c)
      ensures CompatibleNodes(a, b) && NodesLeq(JoinNodes(a, b), c)
    {
      forall pda | pda in a && pda in b
        ensures Compatible(a[pda], b[pda])
      {
        assert NodeLeq(a[pda], c[pda]) && NodeLeq(b[pda], c[pda]);
      }
      forall pda | pda in JoinNodes(a, b)
        ensures pda in c && NodeLeq(JoinNodes(a, b)[pda], c[pda])
      {
        assert pda in a ==> NodeLeq(a[pda], c[pda]);
        assert pda in b ==> NodeLeq(b[pda], c[pda]);
      }
    }
  }

  function JoinTwo(a: Archive, b: Archive): Option<Archive> {
    if b.programId != a.programId || !CompatibleNodes(a.nodes, b.nodes) then None
    else Some(Archive(a.programId, JoinNodes(a.nodes, b.nodes)))
  }

  /** The join of all archives of a nonempty list, `None` if two of them conflict. */
  function JoinAll(archives: seq<Archive>): Option<Archive>
    requires archives != []
  {
    var n := |archives| - 1;
    if n == 0 then Some(archives[0])
    else
      match JoinAll(archives[..n])
      case None => None
      case Some(joined) =>
        JoinTwo(joined, archives[n])
  }

  ghost predicate IsUpperBound(archives: seq<Archive>, c: Archive) {
    forall a | a in archives :: Leq(a, c)
  }

  lemma {:induction false} JoinAllIsLeast(archives: seq<Archive>)
    requires archives != []
    ensures JoinAll(archives).Some? ==> IsUpperBound(archives, JoinAll(archives).value)
    ensures forall c | IsUpperBound(archives, c) :: JoinAll(archives).Some? && Leq(JoinAll(archives).value, c)
    decreases |archives|
  {
    var n := |archives| - 1;
    if n > 0 {
      var init, last := archives[..n], archives[n];
      JoinAllIsLeast(init);
      assert forall a :: a in archives <==> a in init || a == last;
      if JoinAll(init).Some? {
        JoinIsLeast(JoinAll(init).value.nodes, last.nodes);
      }
      if JoinAll(archives).Some? {
        var before, joined := JoinAll(init).value, JoinAll(archives).value;
        forall a | a in archives
          ensures Leq(a, joined)
        {
          if a in init {
            LeqTransitive(a, before, joined);
          }
        }
      }
      forall c | IsUpperBound(archives, c)
        ensures JoinAll(archives).Some? && Leq(JoinAll(archives).value, c)
      {
        assert IsUpperBound(init, c) && Leq(last, c);
        assert Leq(JoinAll(init).value, c);
      }
    }
  }

  /** The outcome of merging: every input valid and of one program, no conflict, valid result. */
  ghost function Merged(H: Hasher, archives: seq<Archive>): Option<Archive>
    requires archives != []
  {
    var joined := JoinAll(archives);
    if joined.Some? && AllValid(H, archives) && ValidArchive(H, joined.value) then joined else None
  }

  ghost predicate AllValid(H: Hasher, archives: seq<Archive>) {
    forall a | a in archives :: ValidArchive(H, a)
  }

  /** Merging succeeds exactly when some valid archive extends all inputs, and then returns
      the least archive that does. */
  lemma MergeIsLeastUpperBound(H: Hasher, archives: seq<Archive>)
    requires archives != []
    ensures Merged(H, archives).Some? <==> exists c :: ValidArchive(H, c) && IsUpperBound(archives, c)
    ensures Merged(H, archives).Some? ==>
              var r := Merged(H, archives).value;
              && ValidArchive(H, r) && IsUpperBound(archives, r)
              && forall c | IsUpperBound(archives, c) :: Leq(r, c)
  {
    JoinAllIsLeast(archives);
    if c :| ValidArchive(H, c) && IsUpperBound(archives, c) {
      ValidDownward(H, JoinAll(archives).value, c);
      forall a | a in archives
        ensures ValidArchive(H, a)
      {
        ValidDownward(H, a, c);
      }
    }
  }

  /** Merging does not depend on the order or repetition of its inputs. */
  lemma MergeOrderIrrelevant(H: Hasher, xs: seq<Archive>, ys: seq<Archive>)
    requires xs != [] && ys != [] && Elements(xs) == Elements(ys)
    ensures Merged(H, xs) == Merged(H, ys)
  {
    MergeIsLeastUpperBound(H, xs);
    MergeIsLeastUpperBound(H, ys);
    forall c
      ensures IsUpperBound(xs, c) <==> IsUpperBound(ys, c)
    {
      assert forall a :: a in xs <==> a in Elements(xs);
      assert forall a :: a in ys <==> a in Elements(ys);
    }
    if Merged(H, xs).Some? {
      LeqAntisymmetric(Merged(H, xs).value, Merged(H, ys).value);
    }
  }

  /** Merging in groups gives the same as merging at once, although each group's result is
      validated on its own first. */
  lemma MergeGroupingIrrelevant(H: Hasher, xs: seq<Archive>, ys: seq<Archive>)
    requires xs != [] && ys != []
    ensures Merged(H, xs + ys)
         == if Merged(H, xs).Some? && Merged(H, ys).Some? then Merged(H, [Merged(H, xs).value, Merged(H, ys).value])
            else None
  {
    MergeIsLeastUpperBound(H, xs);
    MergeIsLeastUpperBound(H, ys);
    MergeIsLeastUpperBound(H, xs + ys);
    forall c | IsUpperBound(xs + ys, c)
      ensures IsUpperBound(xs, c) && IsUpperBound(ys, c)
    {
      assert forall a | a in xs :: a in xs + ys;
      assert forall a | a in ys :: a in xs + ys;
    }
    if Merged(H, xs).Some? && Merged(H, ys).Some? {
      var x, y := Merged(H, xs).value, Merged(H, ys).value;
      MergeIsLeastUpperBound(H, [x, y]);
      forall c
        ensures IsUpperBound([x, y], c) <==> IsUpperBound(xs + ys, c)
      {
        GroupBounds(xs, ys, x, y, c);
      }
      if Merged(H, xs + ys).Some? {
        LeqAntisymmetric(Merged(H, xs + ys).value, Merged(H, [x, y]).value);
      }
    }
  }

  lemma GroupBounds(xs: seq<Archive>, ys: seq<Archive>, x: Archive, y: Archive, c: Archive)
    requires IsUpperBound(xs, x) && IsUpperBound(ys, y)
    requires (IsUpperBound(xs, c) ==> Leq(x, c)) && (IsUpperBound(ys, c) ==> Leq(y, c))
    ensures IsUpperBound([x, y], c) <==> IsUpperBound(xs + ys, c)
  {
    assert x in [x, y] && y in [x, y];
    if IsUpperBound([x, y], c) {
      forall a | a in xs + ys
        ensures Leq(a, c)
      {
        if a in xs {
          LeqTransitive(a, x, c);
        } else {
          LeqTransitive(a, y, c);
        }
      }
    }
    if IsUpperBound(xs + ys, c) {
      assert forall a | a in xs :: a in xs + ys;
      assert forall a | a in ys :: a in xs + ys;
    }
  }

  lemma MergeIdempotent(H: Hasher, a: Archive)
    requires ValidArchive(H, a)
    ensures Merged(H, [a, a]) == Some(a)
  {
    assert Elements([a, a]) == Elements([a]);
    MergeOrderIrrelevant(H, [a, a], [a]);
  }

  // ----- The merge as the SDK runs it

  lemma JoinOneMore(a: Nodes, b: Nodes, pda: Address, node: Node)
    requires pda !in b
    ensures CompatibleNodes(a, b[pda := node]) <==> CompatibleNodes(a, b) && (pda in a ==> Compatible(a[pda], node))
    ensures JoinNodes(a, b[pda := node]) == JoinNodes(a, b)[pda := if pda in a then JoinNode(a[pda], node) else node]
  {
    if CompatibleNodes(a, b[pda := node]) {
      forall k | k in a && k in b
        ensures Compatible(a[k], b[k])
      {
        assert b[pda := node][k] == b[k];
      }
      assert pda in a ==> Compatible(a[pda], b[pda := node][pda]);
    }
  }

  /** Merging one node in. */
  method MergeNode(nodes: Nodes, pda: Address, node: Node) returns (r: Result<Nodes, ArchiveError>)
    ensures r.Success? <==> (pda in nodes ==> Compatible(nodes[pda], node))
    ensures r.Success? ==> r.value == nodes[pda := if pda in nodes then JoinNode(nodes[pda], node) else node]
  {
    if pda !in nodes {
      return Success(nodes[pda := node]);
    }
    var previous := nodes[pda];
    if previous.record != node.record {
      return Failure(ConflictingIncarnation(pda));
    }
    if (previous.members.Some? && node.members.Some? && previous.members != node.members)
      || (previous.snapshot.Some? && node.snapshot.Some? && previous.snapshot != node.snapshot) {
      return Failure(ConflictingWitness(pda));
    }
    r := Success(nodes[pda := JoinNode(previous, node)]);
  }

  /** How the join of what is merged so far changes with the next node. */
  lemma NextMerged(a: Nodes, b: Nodes, pda: Address, node: Node)
    requires pda !in b
    ensures var joined := JoinNodes(a, b);
            && JoinNodes(a, b[pda := node])
               == joined[pda := if pda in joined then JoinNode(joined[pda], node) else node]
            && (CompatibleNodes(a, b[pda := node]) <==>
                  CompatibleNodes(a, b) && (pda in joined ==> Compatible(joined[pda], node)))
            && (pda in joined <==> pda in a) && (pda in a ==> joined[pda] == a[pda])
  {
    JoinOneMore(a, b, pda, node);
  }

  /** The nodes of `input` that are no longer pending. */
  ghost function Taken(input: Nodes, pending: set<Address>): Nodes {
    input - pending
  }

  /** The join of what was taken so far, if that is without conflict. */
  ghost predicate MergedSoFar(result: Nodes, input: Nodes, pending: set<Address>, nodes: Nodes) {
    nodes == JoinNodes(result, Taken(input, pending)) && CompatibleNodes(result, Taken(input, pending))
  }

  lemma MergeStep(result: Nodes, input: Nodes, pending: set<Address>, nodes: Nodes, pda: Address)
    requires pda in pending && pending <= input.Keys && MergedSoFar(result, input, pending, nodes)
    ensures if pda in nodes ==> Compatible(nodes[pda], input[pda])
            then MergedSoFar(result, input, pending - {pda},
                             nodes[pda := if pda in nodes then JoinNode(nodes[pda], input[pda]) else input[pda]])
            else !CompatibleNodes(result, input)
  {
    assert Taken(input, pending - {pda}) == Taken(input, pending)[pda := input[pda]];
    NextMerged(result, Taken(input, pending), pda, input[pda]);
  }

  lemma MergeEnds(result: Nodes, input: Nodes)
    ensures JoinNodes(result, Taken(input, input.Keys)) == result
    ensures Taken(input, {}) == input
  {
    assert Taken(input, input.Keys) == map[];
  }

  method MergeInto(result: Nodes, input: Nodes) returns (r: Result<Nodes, ArchiveError>)
    ensures r.Success? <==> CompatibleNodes(result, input)
    ensures r.Success? ==> r.value == JoinNodes(result, input)
  {
    var nodes, pending := result, input.Keys;
    MergeEnds(result, input);
    while pending != {}
      invariant pending <= input.Keys && MergedSoFar(result, input, pending, nodes)
      decreases |pending|
    {
      var pda :| pda in pending;
      MergeStep(result, input, pending, nodes, pda);
      var one := MergeNode(nodes, pda, input[pda]);
      if one.Failure? {
        return one;
      }
      nodes, pending := one.value, pending - {pda};
    }
    r := Success(nodes);
  }

  lemma JoinAllAppended(seen: seq<Archive>, last: Archive)
    requires seen != []
    ensures JoinAll(seen + [last])
         == if JoinAll(seen).None? then None else JoinTwo(JoinAll(seen).value, last)
  {
    assert (seen + [last])[..|seen|] == seen;
  }

  method MergeOne(H: Hasher, result: Archive, input: Archive) returns (r: Result<Archive, ArchiveError>)
    ensures r.Success? <==> ValidArchive(H, input) && JoinTwo(result, input).Some?
    ensures r.Success? ==> JoinTwo(result, input) == Some(r.value)
  {
    var archive := ParseArchive(H, input);
    if archive.Failure? {
      return archive;
    }
    if archive.value.programId != result.programId {
      return Failure(DifferentProgram);
    }
    var merged := MergeInto(result.nodes, archive.value.nodes);
    r := if merged.Failure? then Failure(merged.error) else Success(Archive(result.programId, merged.value));
  }

  method MergeArchives(H: Hasher, first: Archive, others: seq<Archive>) returns (r: Result<Archive, ArchiveError>)
    ensures r.Success? <==> Merged(H, [first] + others).Some?
    ensures r.Success? ==> Merged(H, [first] + others) == Some(r.value)
  {
    ghost var all := [first] + others;
    assert first == all[0] && first in all;
    r := ParseArchive(H, first);
    if r.Failure? {
      return;
    }
    ghost var seen := [first];
    for i := 0 to |others|
      invariant r.Success? && |seen| == i + 1 && seen == all[..i + 1]
      invariant JoinAll(seen) == Some(r.value) && AllValid(H, seen)
    {
      ghost var before := r.value;
      r := MergeOne(H, r.value, others[i]);
      MergedOneMore(H, all, seen, i + 1, before);
      if r.Failure? {
        return;
      }
      seen := seen + [others[i]];
    }
    assert seen == all;
    r := ParseArchive(H, r.value);
  }

  lemma MergedOneMore(H: Hasher, all: seq<Archive>, seen: seq<Archive>, n: nat, joined: Archive)
    requires 0 < n < |all| && seen == all[..n] && JoinAll(seen) == Some(joined) && AllValid(H, seen)
    ensures all[..n + 1] == seen + [all[n]]
    ensures if ValidArchive(H, all[n]) && JoinTwo(joined, all[n]).Some?
            then AllValid(H, seen + [all[n]]) && JoinAll(seen + [all[n]]) == JoinTwo(joined, all[n])
            else Merged(H, all).None?
  {
    JoinAllAppended(seen, all[n]);
    assert all[..n + 1] == seen + [all[n]];
    if !ValidArchive(H, all[n]) || JoinTwo(joined, all[n]).None? {
      CannotMerge(H, all, n);
    }
  }

  lemma CannotMerge(H: Hasher, archives: seq<Archive>, n: nat)
    requires 0 < n < |archives|
    requires !ValidArchive(H, archives[n]) || JoinAll(archives[..n + 1]).None?
    ensures Merged(H, archives).None?
  {
    assert archives[n] in archives;
    if JoinAll(archives[..n + 1]).None? {
      JoinFailsAt(archives, n + 1);
    }
  }

  lemma {:induction false} JoinFailsAt(archives: seq<Archive>, n: nat)
    requires 0 < n <= |archives| && JoinAll(archives[..n]).None?
    ensures JoinAll(archives).None?
    decreases |archives|
  {
    if n == |archives| {
      assert archives[..n] == archives;
    } else {
      assert archives[..|archives| - 1][..n] == archives[..n];
      JoinFailsAt(archives[..|archives| - 1], n);
    }
  }
}
