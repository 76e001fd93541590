/** Depth-first dependency ordering.  `VisitAll` is the recursive meaning of both
    iterative walks of the system: the enter/exit stack of the SDK (module StackWalk) and the
    frame stack of the on-chain program (module ProofGraph). */
module DependencyWalk {
  import opened Outcomes

  /** Present nodes with their ordered dependencies; `None` when they are not known. */
  type Graph<T(==)> = map<T, Option<seq<T>>>

  datatype Walk<T> =
    | Done(order: seq<T>)
    | Cycle(at: T)
    | Missing(at: T)
    | Unknown(at: T)

  function Dependencies<T>(g: Graph<T>, v: T): seq<T> {
    if v in g && g[v].Some? then g[v].value else []
  }

  function Visit<T>(g: Graph<T>, v: T, active: set<T>, order: seq<T>, complete: bool): Walk<T>
    decreases g.Keys - active, 0
  {
    if v in order then Done(order)
    else if v in active then Cycle(v)
    else if v !in g then if complete then Missing(v) else Done(order)
    else if complete && g[v].None? then Unknown(v)
    else Append(VisitAll(g, Dependencies(g, v), active + {v}, order, complete), v)
  }

  function Append<T>(w: Walk<T>, v: T): Walk<T> {
    if w.Done? then Done(w.order + [v]) else w
  }

  function VisitAll<T>(g: Graph<T>, vs: seq<T>, active: set<T>, order: seq<T>, complete: bool): Walk<T>
    decreases g.Keys - active, |vs| + 1
  {
    if vs == [] then Done(order)
    else
      match Visit(g, vs[0], active, order, complete)
      case Done(before) => VisitAll(g, vs[1..], active, before, complete)
      case failed => failed
  }

  // ----- Paths and reachability

  ghost predicate IsPath<T>(g: Graph<T>, p: seq<T>) {
    && |p| > 0
    && forall i | 0 <= i < |p| - 1 :: p[i + 1] in Dependencies(g, p[i])
  }

  ghost predicate Connects<T>(g: Graph<T>, p: seq<T>, a: T, b: T) {
    IsPath(g, p) && p[0] == a && p[|p| - 1] == b
  }

  ghost predicate Reaches<T(!new)>(g: Graph<T>, a: T, b: T) {
    exists p :: Connects(g, p, a, b)
  }

  /** Reachable by at least one dependency edge. */
  ghost predicate DependsOn<T(!new)>(g: Graph<T>, a: T, b: T) {
    exists p :: Connects(g, p, a, b) && |p| >= 2
  }

  lemma ReachesSelf<T(!new)>(g: Graph<T>, a: T)
    ensures Reaches(g, a, a)
  {
    assert Connects(g, [a], a, a);
  }

  lemma ReachesByEdge<T(!new)>(g: Graph<T>, a: T, b: T, c: T)
    requires b in Dependencies(g, a) && Reaches(g, b, c)
    ensures Reaches(g, a, c) && DependsOn(g, a, c)
  {
    var p :| Connects(g, p, b, c);
    assert Connects(g, [a] + p, a, c);
  }

  lemma DependsOnExtended<T(!new)>(g: Graph<T>, a: T, b: T, c: T)
    requires DependsOn(g, a, b) && c in Dependencies(g, b)
    ensures DependsOn(g, a, c)
  {
    var p :| Connects(g, p, a, b) && |p| >= 2;
    assert Connects(g, p + [c], a, c);
  }

  lemma PathPrefix<T>(g: Graph<T>, p: seq<T>, n: nat)
    requires IsPath(g, p) && 0 < n < |p|
    ensures Connects(g, p[..n], p[0], p[n - 1]) && p[n] in Dependencies(g, p[n - 1])
  {
    forall k | 0 <= k < n - 1
      ensures p[..n][k + 1] in Dependencies(g, p[..n][k])
    {
      assert p[k + 1] in Dependencies(g, p[k]);
    }
    assert p[(n - 1) + 1] in Dependencies(g, p[n - 1]);
  }

  /** A set that holds the start of a path and every dependency of its members holds the end. */
  lemma {:induction false} ClosedUnderDependencies<T(!new)>(g: Graph<T>, closed: set<T>, a: T, b: T)
    requires a in closed && Reaches(g, a, b)
    requires forall u, d | u in closed && d in Dependencies(g, u) :: d in closed
    ensures b in closed
  {
    var p :| Connects(g, p, a, b);
    for n := 1 to |p|
      invariant p[n - 1] in closed
    {
      PathPrefix(g, p, n);
    }
  }

  /** A graph whose every edge leads to a lower rank has no cycle. */
  lemma RankedIsAcyclic<T(!new)>(g: Graph<T>, rank: T -> int, a: T)
    requires forall u, d | d in Dependencies(g, u) :: rank(d) < rank(u)
    ensures !DependsOn(g, a, a)
  {
    if p :| Connects(g, p, a, a) && |p| >= 2 {
      for n := 1 to |p|
        invariant rank(p[n - 1]) <= rank(a) && (n > 1 ==> rank(p[n - 1]) < rank(a))
      {
        assert p[(n - 1) + 1] in Dependencies(g, p[n - 1]);
      }
    }
  }

  // ----- What a successful walk means

  ghost predicate DependencyFirst<T>(g: Graph<T>, order: seq<T>) {
    forall i, d | 0 <= i < |order| && d in Dependencies(g, order[i]) && d in g :: d in order[..i]
  }

  ghost predicate Known<T>(g: Graph<T>, v: T) {
    v in g && g[v].Some? && forall d | d in g[v].value :: d in g
  }

  ghost predicate Ordered<T>(g: Graph<T>, active: set<T>, order: seq<T>, complete: bool) {
    && Distinct(order)
    && DependencyFirst(g, order)
    && (forall x | x in order :: x in g && x !in active)
    && (complete ==> forall x | x in order :: Known(g, x))
  }

  lemma {:induction false} VisitSound<T(!new)>(g: Graph<T>, v: T, active: set<T>, order: seq<T>, complete: bool)
    requires Ordered(g, active, order, complete)
    requires Visit(g, v, active, order, complete).Done?
    ensures var after := Visit(g, v, active, order, complete).order;
            && order <= after
            && Ordered(g, active, after, complete)
            && (v in g ==> v in after)
            && (complete ==> v in g)
            && (forall x | x in after :: x in order || Reaches(g, v, x))
    decreases g.Keys - active, 0
  {
    ReachesSelf(g, v);
    if v !in order && v in g {
      var deps := Dependencies(g, v);
      VisitAllSound(g, deps, active + {v}, order, complete);
      var before := VisitAll(g, deps, active + {v}, order, complete).order;
      var after := before + [v];
      assert v !in before;
      forall i, d | 0 <= i < |after| && d in Dependencies(g, after[i]) && d in g
        ensures d in after[..i]
      {
        if i < |before| {
          assert after[..i] == before[..i];
        } else {
          assert after[..i] == before;
        }
      }
      forall x | x in after
        ensures x in order || Reaches(g, v, x)
      {
        if x in before && x !in order {
          var d :| d in deps && Reaches(g, d, x);
          ReachesByEdge(g, v, d, x);
        }
      }
    }
  }

  lemma {:induction false} VisitAllSound<T(!new)>(
    g: Graph<T>, vs: seq<T>, active: set<T>, order: seq<T>, complete: bool)
    requires Ordered(g, active, order, complete)
    requires VisitAll(g, vs, active, order, complete).Done?
    ensures var after := VisitAll(g, vs, active, order, complete).order;
            && order <= after
            && Ordered(g, active, after, complete)
            && (forall v | v in vs :: (v in g ==> v in after) && (complete ==> v in g))
            && (forall x | x in after :: x in order || exists v :: v in vs && Reaches(g, v, x))
    decreases g.Keys - active, |vs| + 1
  {
    if vs != [] {
      VisitSound(g, vs[0], active, order, complete);
      var middle := Visit(g, vs[0], active, order, complete).order;
      VisitAllSound(g, vs[1..], active, middle, complete);
      assert forall v | v in vs :: v == vs[0] || v in vs[1..];
    }
  }

  // ----- What a failed walk means

  ghost predicate Explains<T(!new)>(g: Graph<T>, from: T, failed: Walk<T>, complete: bool) {
    match failed
    case Done(_) => false
    case Cycle(at) => Reaches(g, from, at) && DependsOn(g, at, at)
    case Missing(at) => complete && Reaches(g, from, at) && at !in g
    case Unknown(at) => complete && Reaches(g, from, at) && at in g && g[at].None?
  }

  lemma {:induction false} VisitExplained<T(!new)>(g: Graph<T>, v: T, active: set<T>, order: seq<T>, complete: bool)
    requires !Visit(g, v, active, order, complete).Done?
    requires forall a | a in active :: DependsOn(g, a, v)
    ensures Explains(g, v, Visit(g, v, active, order, complete), complete)
    decreases g.Keys - active, 0
  {
    ReachesSelf(g, v);
    if v !in active && v in g && !(complete && g[v].None?) {
      var deps := Dependencies(g, v);
      forall a, d | a in active + {v} && d in deps
        ensures DependsOn(g, a, d)
      {
        ReachesSelf(g, d);
        if a == v {
          ReachesByEdge(g, v, d, d);
        } else {
          DependsOnExtended(g, a, v, d);
        }
      }
      var d := VisitAllExplained(g, deps, active + {v}, order, complete);
      ReachesByEdge(g, v, d, VisitAll(g, deps, active + {v}, order, complete).at);
    }
  }

  lemma {:induction false} VisitAllExplained<T(!new)>(
    g: Graph<T>, vs: seq<T>, active: set<T>, order: seq<T>, complete: bool) returns (from: T)
    requires !VisitAll(g, vs, active, order, complete).Done?
    requires forall a, v | a in active && v in vs :: DependsOn(g, a, v)
    ensures from in vs && Explains(g, from, VisitAll(g, vs, active, order, complete), complete)
    decreases g.Keys - active, |vs| + 1
  {
    var first := Visit(g, vs[0], active, order, complete);
    if first.Done? {
      from := VisitAllExplained(g, vs[1..], active, first.order, complete);
    } else {
      VisitExplained(g, vs[0], active, order, complete);
      from := vs[0];
    }
  }

  // ----- Order and reachability

  lemma PathPresent<T>(g: Graph<T>, p: seq<T>)
    requires IsPath(g, p)
    ensures forall i | 0 <= i < |p| - 1 :: p[i] in g
  {
    forall i | 0 <= i < |p| - 1
      ensures p[i] in g
    {
      assert p[i + 1] in Dependencies(g, p[i]);
    }
  }

  /** A dependency-first list that holds the start of a path holds every present node of it,
      strictly earlier with every edge. */
  lemma {:induction false} PathDescends<T>(g: Graph<T>, order: seq<T>, p: seq<T>, start: nat)
    requires DependencyFirst(g, order) && IsPath(g, p)
    requires start < |order| && order[start] == p[0]
    ensures forall k | 0 <= k < |p| && p[k] in g :: p[k] in order[..start + 1]
    ensures |p| >= 2 && p[|p| - 1] in g ==> p[|p| - 1] in order[..start]
    decreases |p|
  {
    assert p[0] in order[..start + 1];
    PathPresent(g, p);
    if |p| >= 2 && p[1] in g {
      var next :| 0 <= next < start && order[next] == p[1];
      assert IsPath(g, p[1..]) by {
        forall i | 0 <= i < |p[1..]| - 1
          ensures p[1..][i + 1] in Dependencies(g, p[1..][i])
        {
          assert p[1..][i] == p[i + 1] && p[1..][i + 1] == p[i + 2];
        }
      }
      PathDescends(g, order, p[1..], next);
      forall k | 0 <= k < |p| && p[k] in g
        ensures p[k] in order[..start + 1] && (k > 0 ==> p[k] in order[..start])
      {
        if k > 0 {
          assert p[k] == p[1..][k - 1];
          assert p[k] in order[..next + 1];
        }
      }
    }
  }

  ghost predicate Walkable<T(!new)>(g: Graph<T>, roots: seq<T>, complete: bool) {
    forall r, x | r in roots && Reaches(g, r, x) ::
      !DependsOn(g, x, x) && (complete ==> x in g && g[x].Some?)
  }

  /** The walk succeeds exactly on acyclic (and, when asked for, complete) histories, and
      then lists each reachable present node once, after everything it depends on. */
  lemma WalkCorrect<T(!new)>(g: Graph<T>, roots: seq<T>, complete: bool)
    ensures var w := VisitAll(g, roots, {}, [], complete);
            && (w.Done? <==> Walkable(g, roots, complete))
            && (w.Done? ==>
                  && Distinct(w.order)
                  && DependencyFirst(g, w.order)
                  && (forall x :: x in w.order <==> x in g && exists r :: r in roots && Reaches(g, r, x)))
  {
    var w := VisitAll(g, roots, {}, [], complete);
    if w.Done? {
      VisitAllSound(g, roots, {}, [], complete);
      forall r, x | r in roots && Reaches(g, r, x)
        ensures x in g ==> x in w.order
        ensures !DependsOn(g, x, x) && (complete ==> x in g && g[x].Some?)
      {
        ReachedIsListed(g, w.order, r, x, complete);
        if DependsOn(g, x, x) {
          var p :| Connects(g, p, x, x) && |p| >= 2;
          assert p[1] in Dependencies(g, x);
          var start :| 0 <= start < |w.order| && w.order[start] == x;
          PathDescends(g, w.order, p, start);
          assert false;
        }
      }
    } else {
      var from := VisitAllExplained(g, roots, {}, [], complete);
      assert Reaches(g, from, w.at);
    }
  }

  ghost predicate MeetsCycle<T(!new)>(g: Graph<T>, roots: seq<T>) {
    exists r, x :: r in roots && Reaches(g, r, x) && DependsOn(g, x, x)
  }

  /** Every failure names a real fault that some root reaches.  Without completeness the only
      possible failure is a cycle, and it is reported exactly when there is one. */
  lemma FailuresAreReal<T(!new)>(g: Graph<T>, roots: seq<T>, complete: bool)
    ensures var w := VisitAll(g, roots, {}, [], complete);
            && (!w.Done? ==> exists from :: from in roots && Explains(g, from, w, complete))
            && (w.Cycle? ==> MeetsCycle(g, roots))
            && (!complete ==> (w.Cycle? <==> MeetsCycle(g, roots)))
  {
    WalkCorrect(g, roots, complete);
    if !VisitAll(g, roots, {}, [], complete).Done? {
      var from := VisitAllExplained(g, roots, {}, [], complete);
    }
  }

  lemma ReachedIsListed<T(!new)>(g: Graph<T>, order: seq<T>, r: T, x: T, complete: bool)
    requires Ordered(g, {}, order, complete) && Reaches(g, r, x)
    requires (r in g ==> r in order) && (complete ==> r in g)
    ensures x in g ==> x in order
    ensures complete ==> x in g && g[x].Some?
  {
    var p :| Connects(g, p, r, x);
    PathPresent(g, p);
    if r in g {
      var start :| 0 <= start < |order| && order[start] == r;
      PathDescends(g, order, p, start);
      if complete && |p| >= 2 {
        var u := p[|p| - 2];
        assert p[(|p| - 2) + 1] in Dependencies(g, u);
        assert u in order[..start + 1];
        assert Known(g, u) && Known(g, x);
      }
    }
  }
}
