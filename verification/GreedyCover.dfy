/** Choosing among compiled steps: repeatedly the one that covers most, with a proved bound on
    how far that can be from the best choice. */
module GreedyCover {
  import opened Outcomes
  import opened Ledger
  import opened Candidates
  import opened Planner

  // ----- Greedy cover

  function Among(targets: seq<Address>, remaining: set<Address>): (r: seq<Address>)
    ensures forall t :: t in r <==> t in targets && t in remaining
  {
    if targets == [] then []
    else
      var n := |targets| - 1;
      Among(targets[..n], remaining) + if targets[n] in remaining then [targets[n]] else []
  }

  function Coverage(step: PlanStep, remaining: set<Address>): nat {
    |Among(step.targets, remaining)|
  }

  lemma {:induction false} CoverageCounts(targets: seq<Address>, remaining: set<Address>)
    requires Distinct(targets)
    ensures |Among(targets, remaining)| == |Elements(targets) * remaining|
    decreases |targets|
  {
    if targets != [] {
      var n := |targets| - 1;
      CoverageCounts(targets[..n], remaining);
      var before, all := Elements(targets[..n]) * remaining, Elements(targets) * remaining;
      assert forall t :: t in targets <==> t in targets[..n] || t == targets[n];
      assert all == if targets[n] in remaining then before + {targets[n]} else before;
    }
  }

  /** What the ranking looks at: covered targets, extra records, bytes per covered target, and
      the anchor's own order. */
  datatype Merit = Merit(coverage: nat, additional: nat, cost: real, order: int)

  function MeritOf(step: PlanStep, remaining: set<Address>, order: Address -> int): (r: Merit)
    ensures r.coverage == Coverage(step, remaining)
  {
    var coverage := Coverage(step, remaining);
    Merit(coverage, |step.additional|, if coverage == 0 then 0.0 else step.bytes as real / coverage as real,
          order(step.anchor))
  }

  /** Whether the ranking puts `a` strictly before `b`. */
  predicate Precedes(a: Merit, b: Merit) {
    if a.coverage != b.coverage then a.coverage > b.coverage
    else if a.additional != b.additional then a.additional < b.additional
    else if a.cost != b.cost then a.cost < b.cost
    else a.order < b.order
  }

  /** The head of the stable ranking of the steps that cover something: nothing precedes it,
      and it precedes every earlier one. */
  ghost predicate HeadOfRanking(merits: seq<Merit>, i: nat) {
    && i < |merits| && merits[i].coverage > 0
    && (forall j | 0 <= j < |merits| && merits[j].coverage > 0 :: !Precedes(merits[j], merits[i]))
    && (forall j | 0 <= j < i && merits[j].coverage > 0 :: Precedes(merits[i], merits[j]))
  }

  function Merits(usable: seq<PlanStep>, remaining: set<Address>, order: Address -> int): (r: seq<Merit>)
    ensures |r| == |usable| && forall i | 0 <= i < |r| :: r[i] == MeritOf(usable[i], remaining, order)
  {
    seq(|usable|, i requires 0 <= i < |usable| => MeritOf(usable[i], remaining, order))
  }

  function HeadOf(merits: seq<Merit>): (r: Option<nat>)
    ensures r.None? <==> forall i | 0 <= i < |merits| :: merits[i].coverage == 0
    ensures r.Some? ==> HeadOfRanking(merits, r.value)
  {
    if merits == [] then None
    else
      var n := |merits| - 1;
      var best := HeadOf(merits[..n]);
      if merits[n].coverage == 0 then best
      else if best.None? || Precedes(merits[n], merits[best.value]) then Some(n)
      else best
  }

  /** The step a round picks. */
  function Best(usable: seq<PlanStep>, remaining: set<Address>, order: Address -> int): (r: Option<PlanStep>)
    ensures r.None? <==> forall i | 0 <= i < |usable| :: Coverage(usable[i], remaining) == 0
    ensures r.Some? ==> r.value in usable && Coverage(r.value, remaining) > 0
    ensures r.Some? ==> forall i | 0 <= i < |usable| :: Coverage(usable[i], remaining) <= Coverage(r.value, remaining)
  {
    var merits := Merits(usable, remaining, order);
    var head := HeadOf(merits);
    if head.None? then
      assert forall i | 0 <= i < |usable| :: merits[i].coverage == Coverage(usable[i], remaining);
      None
    else
      assert forall i | 0 <= i < |usable| && merits[i].coverage > 0 :: !Precedes(merits[i], merits[head.value]);
      Some(usable[head.value])
  }

  lemma DividedByEqual(a: nat, b: nat, c: nat)
    requires c > 0
    ensures a as real / c as real < b as real / c as real <==> a < b
    ensures a as real / c as real == b as real / c as real <==> a == b
  {
    var x, y, z := a as real, b as real, c as real;
    assert x / z * z == x && y / z * z == y;
    if x / z < y / z {
      assert x / z * z < y / z * z;
    }
    if y / z < x / z {
      assert y / z * z < x / z * z;
    }
  }

  /** Among usable steps that cover as many targets the pick adds the fewest other records, then
      takes the fewest bytes, then comes first by anchor, then came first. */
  lemma PickBreaksTies(usable: seq<PlanStep>, remaining: set<Address>, order: Address -> int, j: nat) returns (i: nat)
    requires Best(usable, remaining, order).Some? && j < |usable|
    ensures i < |usable| && Best(usable, remaining, order) == Some(usable[i])
    ensures Coverage(usable[j], remaining) <= Coverage(usable[i], remaining)
    ensures Coverage(usable[j], remaining) == Coverage(usable[i], remaining) ==>
              var pick, other := usable[i], usable[j];
              && |pick.additional| <= |other.additional|
              && (|pick.additional| == |other.additional| ==>
                    && pick.bytes <= other.bytes
                    && (pick.bytes == other.bytes ==>
                          && order(pick.anchor) <= order(other.anchor)
                          && (order(pick.anchor) == order(other.anchor) ==> i <= j)))
  {
    var merits := Merits(usable, remaining, order);
    i := HeadOf(merits).value;
    assert Best(usable, remaining, order) == Some(usable[i]);
    var covered := Coverage(usable[i], remaining);
    assert merits[i] == MeritOf(usable[i], remaining, order) && merits[j] == MeritOf(usable[j], remaining, order);
    if Coverage(usable[j], remaining) == covered {
      DividedByEqual(usable[i].bytes, usable[j].bytes, covered);
      DividedByEqual(usable[j].bytes, usable[i].bytes, covered);
    }
  }

  /** What the chosen steps leave uncovered. */
  function Left(targets: set<Address>, steps: seq<PlanStep>): set<Address> {
    if steps == [] then targets
    else Left(targets, steps[..|steps| - 1]) - Elements(steps[|steps| - 1].targets)
  }

  /** At its turn, step `i` was the best of what was usable. */
  ghost predicate PickedAt(
    usable: seq<PlanStep>, targets: set<Address>, order: Address -> int, steps: seq<PlanStep>, i: nat)
    requires i < |steps|
  {
    Best(usable, Left(targets, steps[..i]), order) == Some(steps[i])
  }

  ghost predicate GreedyRun(usable: seq<PlanStep>, targets: set<Address>, order: Address -> int, steps: seq<PlanStep>) {
    forall i | 0 <= i < |steps| :: PickedAt(usable, targets, order, steps, i)
  }

  lemma NothingCovered(usable: seq<PlanStep>, remaining: set<Address>)
    requires forall i | 0 <= i < |usable| :: Coverage(usable[i], remaining) == 0
    ensures remaining !! Elements(AllTargets(usable))
  {
    forall t | t in AllTargets(usable)
      ensures t !in remaining
    {
      InAllTargets(usable, t);
      var i :| 0 <= i < |usable| && t in usable[i].targets;
      assert t !in Among(usable[i].targets, remaining);
    }
  }

  lemma PickCovers(step: PlanStep, remaining: set<Address>)
    requires Coverage(step, remaining) > 0
    ensures |remaining - Elements(step.targets)| < |remaining|
  {
    var t := Among(step.targets, remaining)[0];
    assert t in Among(step.targets, remaining);
    assert remaining - Elements(step.targets) <= remaining - {t};
    SmallerSet(remaining - Elements(step.targets), remaining - {t});
  }

  lemma {:induction false} SmallerSet<T>(a: set<T>, b: set<T>)
    requires a <= b
    ensures |a| <= |b|
    decreases |b|
  {
    if b != {} {
      var x :| x in b;
      SmallerSet(a - {x}, b - {x});
    }
  }

  lemma LeftAfter(targets: set<Address>, steps: seq<PlanStep>, step: PlanStep)
    ensures Left(targets, steps + [step]) == Left(targets, steps) - Elements(step.targets)
  {
    assert (steps + [step])[..|steps|] == steps;
  }

  lemma LeftAt(targets: set<Address>, steps: seq<PlanStep>, t: nat)
    requires 0 < t <= |steps|
    ensures Left(targets, steps[..t]) == Left(targets, steps[..t - 1]) - Elements(steps[t - 1].targets)
  {
    assert steps[..t] == steps[..t - 1] + [steps[t - 1]];
    LeftAfter(targets, steps[..t - 1], steps[t - 1]);
  }

  lemma AppendTake<T>(s: seq<T>, x: T, i: nat)
    requires i <= |s|
    ensures (s + [x])[..i] == s[..i] && s[..|s|] == s
  {
  }

  lemma PickedCoversMost(
    usable: seq<PlanStep>, targets: set<Address>, order: Address -> int, steps: seq<PlanStep>, i: nat)
    requires GreedyRun(usable, targets, order, steps) && i < |steps|
    ensures steps[i] in usable
    ensures var before := Left(targets, steps[..i]);
            forall j | 0 <= j < |usable| :: Coverage(usable[j], before) <= Coverage(steps[i], before)
  {
    assert PickedAt(usable, targets, order, steps, i);
  }

  lemma PickedStill(
    usable: seq<PlanStep>, targets: set<Address>, order: Address -> int, steps: seq<PlanStep>, step: PlanStep, i: nat)
    requires i < |steps| && PickedAt(usable, targets, order, steps, i)
    ensures PickedAt(usable, targets, order, steps + [step], i)
  {
    AppendTake(steps, step, i);
  }

  lemma PickedLast(
    usable: seq<PlanStep>, targets: set<Address>, order: Address -> int, steps: seq<PlanStep>, step: PlanStep)
    requires Best(usable, Left(targets, steps), order) == Some(step)
    ensures PickedAt(usable, targets, order, steps + [step], |steps|)
  {
    AppendTake(steps, step, |steps|);
  }

  lemma GreedyOneMore(
    usable: seq<PlanStep>, targets: set<Address>, order: Address -> int, steps: seq<PlanStep>, step: PlanStep)
    requires GreedyRun(usable, targets, order, steps) && Best(usable, Left(targets, steps), order) == Some(step)
    ensures GreedyRun(usable, targets, order, steps + [step])
  {
    PickedLast(usable, targets, order, steps, step);
    forall i | 0 <= i < |steps|
      ensures PickedAt(usable, targets, order, steps + [step], i)
    {
      PickedStill(usable, targets, order, steps, step, i);
    }
  }

  lemma PickUsable(usable: seq<PlanStep>, step: PlanStep)
    requires step in usable
    ensures Elements(step.targets) <= Elements(AllTargets(usable))
  {
    var i :| 0 <= i < |usable| && usable[i] == step;
    forall t | t in step.targets
      ensures t in AllTargets(usable)
    {
      InSteps(usable, i, t);
    }
  }

  /** Picks the best step until nothing usable covers anything.  Everything is covered exactly
      when every target is in some usable step. */
  method CoverTargets(usable: seq<PlanStep>, targets: set<Address>, order: Address -> int)
    returns (steps: seq<PlanStep>, uncovered: set<Address>)
    ensures GreedyRun(usable, targets, order, steps) && uncovered == Left(targets, steps)
    ensures uncovered == targets - Elements(AllTargets(usable)) && |steps| <= |targets|
  {
    steps, uncovered := [], targets;
    while uncovered != {}
      invariant GreedyRun(usable, targets, order, steps) && uncovered == Left(targets, steps)
      invariant targets - uncovered <= Elements(AllTargets(usable)) && uncovered <= targets
      invariant |steps| + |uncovered| <= |targets|
      decreases |uncovered|
    {
      var best := Best(usable, uncovered, order);
      if best.None? {
        NothingCovered(usable, uncovered);
        return;
      }
      GreedyOneMore(usable, targets, order, steps, best.value);
      LeftAfter(targets, steps, best.value);
      PickUsable(usable, best.value);
      PickCovers(best.value, uncovered);
      steps, uncovered := steps + [best.value], uncovered - Elements(best.value.targets);
    }
  }

  // ----- Quality

  /** Multiplication as repeated addition. */
  function Product(a: nat, b: nat): nat {
    if a == 0 then 0 else b + Product(a - 1, b)
  }

  lemma {:induction false} ProductIs(a: nat, b: nat)
    ensures Product(a, b) == a * b
    decreases a
  {
    if a > 0 {
      ProductIs(a - 1, b);
      assert (a - 1) * b == a * b - b;
    }
  }

  function Power(base: nat, exponent: nat): nat {
    if exponent == 0 then 1 else Product(base, Power(base, exponent - 1))
  }

  lemma {:induction false} SumBound(chosen: seq<PlanStep>, remaining: set<Address>, most: nat)
    requires remaining <= Elements(AllTargets(chosen))
    requires forall i | 0 <= i < |chosen| :: |Elements(chosen[i].targets) * remaining| <= most
    ensures |remaining| <= Product(|chosen|, most)
    decreases |chosen|
  {
    if chosen != [] {
      var n := |chosen| - 1;
      var last, rest := Elements(chosen[n].targets) * remaining, remaining - Elements(chosen[n].targets);
      forall i | 0 <= i < n
        ensures |Elements(chosen[..n][i].targets) * rest| <= most
      {
        SmallerSet(Elements(chosen[i].targets) * rest, Elements(chosen[i].targets) * remaining);
      }
      SumBound(chosen[..n], rest, most);
      assert remaining == last + rest && last !! rest;
    }
  }

  /** `after` is at most (k - 1) / k of `before`. */
  ghost predicate Shrinks(before: nat, after: nat, k: nat)
    requires k > 0
  {
    Product(k, after) <= Product(k - 1, before)
  }

  /** If `chosen` cover everything, each pick removes at least a fraction 1 / |chosen|. */
  /** Each of these is usable, and no usable step names a target twice. */
  ghost predicate ChosenFrom(usable: seq<PlanStep>, chosen: seq<PlanStep>) {
    && (forall i | 0 <= i < |usable| :: Distinct(usable[i].targets))
    && (forall c | c in chosen :: c in usable)
  }

  lemma ChosenBound(usable: seq<PlanStep>, chosen: seq<PlanStep>, remaining: set<Address>, most: nat)
    requires ChosenFrom(usable, chosen)
    requires remaining <= Elements(AllTargets(chosen))
    requires forall i | 0 <= i < |usable| :: Coverage(usable[i], remaining) <= most
    ensures |remaining| <= Product(|chosen|, most)
  {
    forall i | 0 <= i < |chosen|
      ensures |Elements(chosen[i].targets) * remaining| <= most
    {
      assert chosen[i] in usable;
      CoverageCounts(chosen[i].targets, remaining);
    }
    SumBound(chosen, remaining, most);
  }

  lemma PickShrinks(usable: seq<PlanStep>, chosen: seq<PlanStep>, remaining: set<Address>, step: PlanStep)
    requires ChosenFrom(usable, chosen)
    requires remaining <= Elements(AllTargets(chosen)) && step in usable && chosen != []
    requires forall i | 0 <= i < |usable| :: Coverage(usable[i], remaining) <= Coverage(step, remaining)
    ensures Shrinks(|remaining|, |remaining - Elements(step.targets)|, |chosen|)
  {
    var most := Coverage(step, remaining);
    ChosenBound(usable, chosen, remaining, most);
    CoverageCounts(step.targets, remaining);
    Difference(remaining, Elements(step.targets));
    FractionLeft(|remaining|, |chosen|, most);
  }

  lemma Difference<T>(a: set<T>, b: set<T>)
    ensures |a - b| == |a| - |b * a|
  {
    assert a == b * a + (a - b);
  }

  lemma {:induction false} FractionLeft(remaining: nat, k: nat, most: nat)
    requires k > 0 && remaining <= Product(k, most) && most <= remaining
    ensures Shrinks(remaining, remaining - most, k)
  {
    ProductIs(k, most);
    ProductIs(k, remaining - most);
    ProductIs(k - 1, remaining);
    Spread(remaining, k, most);
  }

  lemma {:induction false} Spread(remaining: nat, k: nat, most: nat)
    requires k > 0 && remaining <= k * most && most <= remaining
    ensures k * (remaining - most) <= (k - 1) * remaining
  {
    assert k * (remaining - most) == k * remaining - k * most;
    assert (k - 1) * remaining == k * remaining - remaining;
  }

  lemma {:induction false} Monotone(a: nat, b: nat, c: nat)
    requires a <= b
    ensures a * c <= b * c && c * a <= c * b
  {
  }

  lemma {:induction false} Exchange(a: nat, b: nat, c: nat)
    ensures a * (b * c) == b * (a * c) && (a * b) * c == a * (b * c)
  {
  }

  lemma {:induction false} Multiplied(before: nat, after: nat, n: nat, k: nat, power: nat, lower: nat)
    requires k > 0 && k * after <= (k - 1) * before && before * power <= n * lower
    ensures after * (k * power) <= n * ((k - 1) * lower)
  {
    Exchange(after, k, power);
    Exchange(k, after, power);
    Monotone(k * after, (k - 1) * before, power);
    Exchange(k - 1, before, power);
    Monotone(before * power, n * lower, k - 1);
    Exchange(n, k - 1, lower);
  }

  /** One more factor k on the left and k - 1 on the right. */
  lemma {:induction false} NextPower(before: nat, after: nat, n: nat, k: nat, power: nat, lower: nat)
    requires k > 0 && Shrinks(before, after, k) && Product(before, power) <= Product(n, lower)
    ensures Product(after, Product(k, power)) <= Product(n, Product(k - 1, lower))
  {
    ProductIs(k, after);
    ProductIs(k - 1, before);
    ProductIs(before, power);
    ProductIs(n, lower);
    ProductIs(k, power);
    ProductIs(k - 1, lower);
    ProductIs(after, k * power);
    ProductIs(n, (k - 1) * lower);
    Multiplied(before, after, n, k, power, lower);
  }

  lemma {:induction false} PowerBound(sizes: seq<nat>, k: nat, t: nat)
    requires k > 0 && t < |sizes| && forall i | 0 < i < |sizes| :: Shrinks(sizes[i - 1], sizes[i], k)
    ensures Product(sizes[t], Power(k, t)) <= Product(sizes[0], Power(k - 1, t))
    decreases t
  {
    if t > 0 {
      PowerBound(sizes, k, t - 1);
      assert Shrinks(sizes[t - 1], sizes[t], k);
      NextPower(sizes[t - 1], sizes[t], sizes[0], k, Power(k, t - 1), Power(k - 1, t - 1));
    }
  }

  /** How many targets are left before each pick and after the last. */
  function Sizes(targets: set<Address>, steps: seq<PlanStep>): (r: seq<nat>)
    ensures |r| == |steps| + 1 && forall i | 0 <= i <= |steps| :: r[i] == |Left(targets, steps[..i])|
  {
    seq(|steps| + 1, i requires 0 <= i <= |steps| => |Left(targets, steps[..i])|)
  }

  lemma GreedyPickShrinks(
    usable: seq<PlanStep>, targets: set<Address>, order: Address -> int, steps: seq<PlanStep>, chosen: seq<PlanStep>,
    i: nat)
    requires GreedyRun(usable, targets, order, steps) && 0 < i <= |steps| && chosen != []
    requires ChosenFrom(usable, chosen) && targets <= Elements(AllTargets(chosen))
    ensures Shrinks(|Left(targets, steps[..i - 1])|, |Left(targets, steps[..i])|, |chosen|)
  {
    var before, step := Left(targets, steps[..i - 1]), steps[i - 1];
    LeftShrinks(targets, steps, i - 1);
    PickedCoversMost(usable, targets, order, steps, i - 1);
    PickShrinks(usable, chosen, before, step);
    LeftAt(targets, steps, i);
  }

  lemma {:induction false} LeftShrinks(targets: set<Address>, steps: seq<PlanStep>, t: nat)
    requires t <= |steps|
    ensures Left(targets, steps[..t]) <= targets
    decreases t
  {
    if t > 0 {
      LeftAt(targets, steps, t);
      LeftShrinks(targets, steps, t - 1);
    }
  }

  lemma {:induction false} AsProducts(a: nat, b: nat, c: nat, d: nat)
    requires Product(a, b) <= Product(c, d)
    ensures a * b <= c * d
  {
    ProductIs(a, b);
    ProductIs(c, d);
  }

  /** If some k usable steps cover all n targets, then after t picks at most
      n ((k - 1) / k)^t targets are left. */
  lemma {:induction false} GreedyQuality(
    usable: seq<PlanStep>, targets: set<Address>, order: Address -> int, steps: seq<PlanStep>, chosen: seq<PlanStep>,
    t: nat)
    requires GreedyRun(usable, targets, order, steps) && t <= |steps|
    requires ChosenFrom(usable, chosen)
    requires targets <= Elements(AllTargets(chosen)) && chosen != []
    ensures |Left(targets, steps[..t])| * Power(|chosen|, t) <= |targets| * Power(|chosen| - 1, t)
  {
    var sizes := Sizes(targets, steps);
    forall i | 0 < i < |sizes|
      ensures Shrinks(sizes[i - 1], sizes[i], |chosen|)
    {
      GreedyPickShrinks(usable, targets, order, steps, chosen, i);
    }
    PowerBound(sizes, |chosen|, t);
    AsProducts(sizes[t], Power(|chosen|, t), sizes[0], Power(|chosen| - 1, t));
  }
}
