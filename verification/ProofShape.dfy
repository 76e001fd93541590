/** Which proofs parse, and what their dependency-first order guarantees. */
module ProofShape {
  import opened Outcomes
  import opened Encoding
  import opened Records
  import opened DependencyWalk
  import opened ProofGraph

  // ----- The walk from entry 0, on an arbitrary entry graph

  /** Every dependency is an entry, nothing depends on itself, and entry 0 reaches everything. */
  ghost predicate Rooted(g: Graph<Digest>, ids: seq<Digest>, dependencies: seq<ProofGraph.Dependencies>)
    requires Represents(g, ids, dependencies)
  {
    && (forall i, d | 0 <= i < |ids| && d in dependencies[i] :: d in ids)
    && (forall i | 0 <= i < |ids| :: !DependsOn(g, ids[i], ids[i]))
    && (forall i | 0 <= i < |ids| :: Reaches(g, ids[0], ids[i]))
  }

  lemma WalkFromEntryZero(g: Graph<Digest>, ids: seq<Digest>)
    requires ids != []
    ensures VisitAll(g, [ids[0]], {}, [], true) == Visit(g, ids[0], {}, [], true)
  {
    assert [ids[0]][1..] == [];
  }

  lemma FullOrderListsAll(g: Graph<Digest>, ids: seq<Digest>, order: seq<Digest>)
    requires Distinct(ids) && Distinct(order) && |order| == |ids|
    requires forall x | x in order :: x in ids
    ensures forall x | x in ids :: x in order
  {
    CardinalityOfDistinct(order);
    CardinalityOfDistinct(ids);
    assert Elements(order) <= Elements(ids);
    SubsetOfSameSize(Elements(order), Elements(ids));
    forall x | x in ids
      ensures x in order
    {
      assert x in Elements(ids);
    }
  }

  lemma FullWalkIsRooted(g: Graph<Digest>, ids: seq<Digest>, dependencies: seq<ProofGraph.Dependencies>)
    requires Represents(g, ids, dependencies) && ids != []
    requires var w := Visit(g, ids[0], {}, [], true); w.Done? && |w.order| == |ids|
    ensures Rooted(g, ids, dependencies)
  {
    var order := Visit(g, ids[0], {}, [], true).order;
    WalkFromEntryZero(g, ids);
    WalkCorrect(g, [ids[0]], true);
    VisitSound(g, ids[0], {}, [], true);
    FullOrderListsAll(g, ids, order);
    forall i | 0 <= i < |ids|
      ensures Reaches(g, ids[0], ids[i]) && !DependsOn(g, ids[i], ids[i])
      ensures forall d | d in dependencies[i] :: d in ids
    {
      assert ids[i] in order;
      assert Known(g, ids[i]);
    }
  }

  lemma RootedReachesEntries(g: Graph<Digest>, ids: seq<Digest>, dependencies: seq<ProofGraph.Dependencies>, x: Digest)
    requires Represents(g, ids, dependencies) && ids != [] && Rooted(g, ids, dependencies)
    requires Reaches(g, ids[0], x)
    ensures x in ids
  {
    var p :| Connects(g, p, ids[0], x);
    PathPresent(g, p);
    if |p| >= 2 {
      var u := p[|p| - 2];
      assert p[(|p| - 2) + 1] in DependencyWalk.Dependencies(g, u);
      var i :| 0 <= i < |ids| && ids[i] == u;
      assert x in dependencies[i];
    }
  }

  lemma RootedWalkIsFull(g: Graph<Digest>, ids: seq<Digest>, dependencies: seq<ProofGraph.Dependencies>)
    requires Represents(g, ids, dependencies) && ids != [] && Rooted(g, ids, dependencies)
    ensures var w := Visit(g, ids[0], {}, [], true); w.Done? && |w.order| == |ids|
  {
    WalkFromEntryZero(g, ids);
    forall x | Reaches(g, ids[0], x)
      ensures x in g && g[x].Some? && !DependsOn(g, x, x)
    {
      RootedReachesEntries(g, ids, dependencies, x);
    }
    assert Walkable(g, [ids[0]], true);
    WalkCorrect(g, [ids[0]], true);
    VisitedAreEntries(g, ids);
    var order := Visit(g, ids[0], {}, [], true).order;
    forall x
      ensures x in order <==> x in ids
    {
      if x in ids {
        assert Reaches(g, ids[0], x);
      }
    }
    assert Elements(order) == Elements(ids);
    CardinalityOfDistinct(order);
    CardinalityOfDistinct(ids);
  }

  lemma SubsetOfSameSize<T>(a: set<T>, b: set<T>)
    requires a <= b && |a| == |b|
    ensures a == b
  {
    assert |b - a| == |b| - |a| by {
      assert b == a + (b - a);
    }
    assert b - a == {};
  }

  // ----- Proofs

  ghost predicate DeclaresDependencies(H: Hasher, proof: seq<Link>) {
    forall i | 0 <= i < |proof| :: LinkDependencies(H, proof[i]).Success?
  }

  ghost function GraphOfProof(H: Hasher, proof: seq<Link>): Graph<Digest>
    requires DeclaresDependencies(H, proof)
  {
    GraphOf(ProofIds(H, proof), AllDependencies(H, proof).value)
  }

  /** Nonempty, distinct identities, well-formed parameters, every dependency present, no
      cycle, and every entry reachable from entry 0. */
  ghost predicate WellFormedProof(H: Hasher, proof: seq<Link>) {
    var ids := ProofIds(H, proof);
    && proof != []
    && Distinct(ids)
    && DeclaresDependencies(H, proof)
    && (forall i, d | 0 <= i < |proof| && d in LinkDependencies(H, proof[i]).value :: d in ids)
    && (forall i | 0 <= i < |proof| :: !DependsOn(GraphOfProof(H, proof), ids[i], ids[i]))
    && (forall i | 0 <= i < |proof| :: Reaches(GraphOfProof(H, proof), ids[0], ids[i]))
  }

  /** Parsing succeeds exactly on well-formed proofs. */
  lemma ParseSoundAndComplete(H: Hasher, proof: seq<Link>)
    ensures Parse(H, proof).Success? <==> WellFormedProof(H, proof)
  {
    var ids := ProofIds(H, proof);
    if proof != [] && Distinct(ids) && DeclaresDependencies(H, proof) {
      var g, dependencies := GraphOfProof(H, proof), AllDependencies(H, proof).value;
      GraphRepresents(ids, dependencies);
      assert WellFormedProof(H, proof) <==> Rooted(g, ids, dependencies);
      if Rooted(g, ids, dependencies) {
        RootedWalkIsFull(g, ids, dependencies);
      }
      if Parse(H, proof).Success? {
        FullWalkIsRooted(g, ids, dependencies);
      }
    }
  }

  /** The order is a permutation of the entries; each dependency comes strictly before its
      dependents; entry 0 comes last. */
  ghost predicate DependencyFirstOrder(H: Hasher, proof: seq<Link>, order: seq<nat>) {
    && DeclaresDependencies(H, proof)
    && |order| == |proof| > 0 && Distinct(order)
    && (forall k | 0 <= k < |order| :: order[k] < |proof|)
    && (forall i | 0 <= i < |proof| :: i in order)
    && (forall k, d | 0 <= k < |order| && d in LinkDependencies(H, proof[order[k]]).value ::
          exists j :: 0 <= j < k && proof[order[j]].record.Id(H) == d)
    && order[|order| - 1] == 0
  }

  lemma ParsedOrder(H: Hasher, proof: seq<Link>)
    requires Parse(H, proof).Success?
    ensures DependencyFirstOrder(H, proof, Parse(H, proof).value)
  {
    var ids, dependencies, g := ProofIds(H, proof), AllDependencies(H, proof).value, GraphOfProof(H, proof);
    GraphRepresents(ids, dependencies);
    WalkPositions(g, ids, dependencies);
    var order := Parse(H, proof).value;
    forall k, d | 0 <= k < |order| && d in LinkDependencies(H, proof[order[k]]).value
      ensures exists j :: 0 <= j < k && proof[order[j]].record.Id(H) == d
    {
      var j :| 0 <= j < k && ids[order[j]] == d;
      assert proof[order[j]].record.Id(H) == d;
    }
  }

  lemma WalkPositions(g: Graph<Digest>, ids: seq<Digest>, dependencies: seq<ProofGraph.Dependencies>)
    requires Represents(g, ids, dependencies) && ids != []
    requires var w := Visit(g, ids[0], {}, [], true); w.Done? && |w.order| == |ids|
    ensures var named := Visit(g, ids[0], {}, [], true).order;
            && (forall x | x in named :: x in ids)
            && var order := Positions(ids, named);
            && Distinct(order)
            && (forall i | 0 <= i < |ids| :: i in order)
            && (forall k,
                d | 0 <= k < |order| && d in dependencies[order[k]] :: exists j :: 0 <= j < k && ids[order[j]] == d)
            && order[|order| - 1] == 0
  {
    VisitSound(g, ids[0], {}, [], true);
    var named := Visit(g, ids[0], {}, [], true).order;
    FullOrderListsAll(g, ids, named);
    PositionsCover(ids, named);
    forall k, d | 0 <= k < |named| && d in dependencies[Positions(ids, named)[k]]
      ensures exists j :: 0 <= j < k && ids[Positions(ids, named)[j]] == d
    {
      EarlierDependency(g, named, k, d);
      var j :| 0 <= j < k && named[j] == d;
      assert ids[Positions(ids, named)[j]] == d;
    }
    assert named[|named| - 1] == ids[0];
  }

  lemma PositionsCover(ids: seq<Digest>, named: seq<Digest>)
    requires Distinct(ids) && Distinct(named)
    requires (forall x | x in ids :: x in named) && (forall x | x in named :: x in ids)
    ensures Distinct(Positions(ids, named))
    ensures forall i | 0 <= i < |ids| :: i in Positions(ids, named)
  {
    var order := Positions(ids, named);
    forall i | 0 <= i < |ids|
      ensures i in order
    {
      assert ids[i] in named;
      var k :| 0 <= k < |named| && named[k] == ids[i];
      assert order[k] == i;
    }
  }

  lemma EarlierDependency(g: Graph<Digest>, named: seq<Digest>, k: nat, d: Digest)
    requires Ordered(g, {}, named, true) && k < |named| && d in DependencyWalk.Dependencies(g, named[k])
    ensures exists j :: 0 <= j < k && named[j] == d
  {
    assert Known(g, named[k]);
    assert d in named[..k];
  }

  lemma ParsedReaches(H: Hasher, proof: seq<Link>, i: nat)
    requires Parse(H, proof).Success? && i < |proof|
    ensures Reaches(GraphOfProof(H, proof), proof[0].record.Id(H), proof[i].record.Id(H))
  {
    ParseSoundAndComplete(H, proof);
  }

  /** An edge of the graph leads from one entry to another. */
  lemma ParsedEdge(H: Hasher, proof: seq<Link>, k: nat, d: Digest) returns (j: nat)
    requires Parse(H, proof).Success? && k < |proof|
    requires d in DependencyWalk.Dependencies(GraphOfProof(H, proof), proof[k].record.Id(H))
    ensures DependsDirectly(H, proof, k, j) && proof[j].record.Id(H) == d
  {
    var ids, dependencies := ProofIds(H, proof), AllDependencies(H, proof).value;
    GraphRepresents(ids, dependencies);
    j := EdgeIsEntry(GraphOfProof(H, proof), ids, dependencies, k, d);
  }

  lemma EdgeIsEntry(
    g: Graph<Digest>, ids: seq<Digest>, dependencies: seq<ProofGraph.Dependencies>, k: nat, d: Digest) returns (j: nat)
    requires Represents(g, ids, dependencies) && k < |ids|
    requires var w := Visit(g, ids[0], {}, [], true); w.Done? && |w.order| == |ids|
    requires d in DependencyWalk.Dependencies(g, ids[k])
    ensures d in dependencies[k] && j < |ids| && ids[j] == d
  {
    VisitSound(g, ids[0], {}, [], true);
    FullOrderListsAll(g, ids, Visit(g, ids[0], {}, [], true).order);
    assert Known(g, ids[k]);
    j :| 0 <= j < |ids| && ids[j] == d;
  }

  /** Whatever holds of entry 0 and passes from each entry to its dependencies holds of every entry. */
  lemma ReachesEveryEntry(H: Hasher, proof: seq<Link>, bound: set<nat>)
    requires Parse(H, proof).Success? && 0 in bound
    requires forall k, j | k in bound && k < |proof| && DependsDirectly(H, proof, k, j) :: j in bound
    ensures forall i | 0 <= i < |proof| :: i in bound
  {
    var g := GraphOfProof(H, proof);
    var closed := set k | k in bound && k < |proof| :: proof[k].record.Id(H);
    forall u, d | u in closed && d in DependencyWalk.Dependencies(g, u)
      ensures d in closed
    {
      var k :| k in bound && k < |proof| && proof[k].record.Id(H) == u;
      var j := ParsedEdge(H, proof, k, d);
      assert j in bound;
    }
    forall i | 0 <= i < |proof|
      ensures i in bound
    {
      ParsedReaches(H, proof, i);
      ClosedUnderDependencies(g, closed, proof[0].record.Id(H), proof[i].record.Id(H));
      var k :| k in bound && k < |proof| && proof[k].record.Id(H) == proof[i].record.Id(H);
      assert ProofIds(H, proof)[k] == ProofIds(H, proof)[i];
    }
  }

  ghost predicate DependsDirectly(H: Hasher, proof: seq<Link>, k: nat, j: nat)
    requires k < |proof|
  {
    && j < |proof|
    && LinkDependencies(H, proof[k]).Success?
    && proof[j].record.Id(H) in LinkDependencies(H, proof[k]).value
  }
}
