/** The SDK's iterative walk: one stack of enter and exit entries per root, on which a node
    may sit many times.  It computes exactly `VisitAll`. */
module StackWalk {
  import opened Outcomes
  import opened DependencyWalk

  datatype Entry<T> = Enter(node: T) | Exit(node: T)

  /** What is still to be done, read off the stack (top entry last). */
  ghost function Resume<T>(g: Graph<T>, stack: seq<Entry<T>>, active: set<T>, order: seq<T>, complete: bool): Walk<T>
    decreases |stack|, 0
  {
    if stack == [] then Done(order)
    else
      var rest, top := stack[..|stack| - 1], stack[|stack| - 1];
      match top
      case Exit(v) => Resume(g, rest, active - {v}, order + [v], complete)
      case Enter(v) => Continue(g, rest, active, Visit(g, v, active, order, complete), complete)
  }

  ghost function Continue<T>(g: Graph<T>, stack: seq<Entry<T>>, active: set<T>, w: Walk<T>, complete: bool): Walk<T>
    decreases |stack|, 1
  {
    if w.Done? then Resume(g, stack, active, w.order, complete) else w
  }

  /** The active nodes are the ones whose exit entry is on the stack, each once. */
  ghost predicate Balanced<T>(stack: seq<Entry<T>>, active: set<T>) {
    if stack == [] then active == {}
    else
      var rest, top := stack[..|stack| - 1], stack[|stack| - 1];
      match top
      case Exit(v) => v in active && Balanced(rest, active - {v})
      case Enter(_) => Balanced(rest, active)
  }

  /** Dependencies as they are pushed: in reverse, so that the first one is on top. */
  ghost function Pushed<T>(vs: seq<T>): seq<Entry<T>> {
    if vs == [] then [] else Pushed(vs[1..]) + [Enter(vs[0])]
  }

  lemma {:induction false} ResumePushed<T>(
    g: Graph<T>, base: seq<Entry<T>>, vs: seq<T>, active: set<T>, order: seq<T>, complete: bool)
    ensures Resume(g, base + Pushed(vs), active, order, complete)
         == Continue(g, base, active, VisitAll(g, vs, active, order, complete), complete)
    ensures Balanced(base + Pushed(vs), active) == Balanced(base, active)
    decreases |vs|
  {
    if vs == [] {
      assert base + Pushed(vs) == base;
    } else {
      var stack := base + Pushed(vs);
      assert stack[..|stack| - 1] == base + Pushed(vs[1..]);
      ResumePushed(g, base, vs[1..], active, order, complete);
      var first := Visit(g, vs[0], active, order, complete);
      if first.Done? {
        ResumePushed(g, base, vs[1..], active, first.order, complete);
      }
    }
  }

  /** Expanding an entered node on the stack is one unfolding of `Visit`. */
  lemma ResumeExpanded<T>(g: Graph<T>, rest: seq<Entry<T>>, v: T, active: set<T>, order: seq<T>, complete: bool)
    requires v in g && v !in order && v !in active && !(complete && g[v].None?)
    ensures var expanded := rest + [Exit(v)] + Pushed(Dependencies(g, v));
            && Resume(g, rest + [Enter(v)], active, order, complete)
               == Resume(g, expanded, active + {v}, order, complete)
            && (Balanced(rest, active) ==> Balanced(expanded, active + {v}))
  {
    var deps, base := Dependencies(g, v), rest + [Exit(v)];
    ResumePushed(g, base, deps, active + {v}, order, complete);
    assert (rest + [Enter(v)])[..|rest|] == rest;
    assert base[..|base| - 1] == rest;
    assert active + {v} - {v} == active;
  }

  method DependencyOrder<T(==)>(g: Graph<T>, roots: seq<T>, complete: bool) returns (w: Walk<T>)
    ensures w == VisitAll(g, roots, {}, [], complete)
  {
    var active: set<T>, done: set<T>, ordered: seq<T> := {}, {}, [];
    for i := 0 to |roots|
      invariant active == {} && done == Elements(ordered)
      invariant VisitAll(g, roots, {}, [], complete) == VisitAll(g, roots[i..], {}, ordered, complete)
    {
      var stack := [Enter(roots[i])];
      ghost var outcome := Visit(g, roots[i], {}, ordered, complete);
      while |stack| > 0
        invariant Balanced(stack, active) && done == Elements(ordered)
        invariant Resume(g, stack, active, ordered, complete) == outcome
        decreases g.Keys - active - done, |stack|
      {
        ghost var unstarted := g.Keys - active - done;
        var rest, top := stack[..|stack| - 1], stack[|stack| - 1];
        stack := rest;
        if top.Exit? {
          active := active - {top.node};
          done := done + {top.node};
          ordered := ordered + [top.node];
          assert g.Keys - active - done == unstarted;
          continue;
        }
        var pda := top.node;
        if pda in done {
          continue;
        }
        if pda in active {
          return Cycle(pda);
        }
        if pda !in g {
          if complete {
            return Missing(pda);
          }
          continue;
        }
        if g[pda].None? && complete {
          return Unknown(pda);
        }
        ResumeExpanded(g, rest, pda, active, ordered, complete);
        var dependencies := Dependencies(g, pda);
        active := active + {pda};
        assert g.Keys - active - done == unstarted - {pda};
        stack := stack + [Exit(pda)];
        ghost var base := stack;
        for j := |dependencies| downto 0
          invariant stack == base + Pushed(dependencies[j..])
        {
          assert dependencies[j..][1..] == dependencies[j + 1..];
          stack := stack + [Enter(dependencies[j])];
        }
        assert dependencies[0..] == dependencies;
      }
    }
    return Done(ordered);
  }
}
