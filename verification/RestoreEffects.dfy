/** Exactly what a restore does: which accounts it needs, which records it creates, and that
    doing it again creates nothing. */
module RestoreEffects {
  import opened Outcomes
  import opened Encoding
  import opened Records
  import opened Ledger
  import opened Totals
  import opened LedgerEffects
  import opened LedgerInvariant
  import opened ProofGraph
  import opened ProofShape
  import opened ProofMeaning
  import opened AnchorBinding
  import opened Restoring

  // ----- Binding is a bijection

  ghost predicate PairFor(H: Hasher, payer: Key, proof: seq<Link>, i: nat, pair: Pair) {
    && i < |proof|
    && pair.hash.address == HashPda(proof[i].record.Id(H))
    && pair.vote.address == VotePda(payer, proof[i].record.Id(H))
  }

  ghost predicate Supplies(remaining: seq<Meta>, j: nat, pair: Pair) {
    2 * j + 1 < |remaining| && pair == Pair(remaining[2 * j], remaining[2 * j + 1])
  }

  lemma BoundPair(H: Hasher, payer: Key, proof: seq<Link>, before: Pairs, pair: Pair) returns (index: nat)
    requires Distinct(ProofIds(H, proof)) && BindOne(H, payer, proof, before, pair).Success?
    ensures BindOne(H, payer, proof, before, pair).value == before[index := pair]
    ensures index in Eligible(proof) && index !in before && PairFor(H, payer, proof, index, pair)
  {
    index := IndexOf(ProofIds(H, proof), pair.hash.address.id);
  }

  lemma {:induction false} BoundPairs(H: Hasher, payer: Key, proof: seq<Link>, remaining: seq<Meta>)
    requires Distinct(ProofIds(H, proof)) && |remaining| % 2 == 0 && BindAll(H, payer, proof, remaining).Success?
    ensures BindAll(H, payer, proof, remaining).value.Keys <= Eligible(proof)
    ensures AllPaired(H, payer, proof, BindAll(H, payer, proof, remaining).value)
    ensures 2 * |BindAll(H, payer, proof, remaining).value| == |remaining|
    decreases |remaining|
  {
    if |remaining| >= 2 {
      var n := |remaining| - 2;
      BoundPairs(H, payer, proof, remaining[..n]);
      var before := BindAll(H, payer, proof, remaining[..n]).value;
      var index := BoundPair(H, payer, proof, before, Pair(remaining[n], remaining[n + 1]));
      OneMorePair(H, payer, proof, before, index, Pair(remaining[n], remaining[n + 1]));
    }
  }

  lemma OneMorePair(H: Hasher, payer: Key, proof: seq<Link>, before: Pairs, index: nat, pair: Pair)
    requires AllPaired(H, payer, proof, before) && before.Keys <= Eligible(proof)
    requires index !in before && index in Eligible(proof) && PairFor(H, payer, proof, index, pair)
    ensures AllPaired(H, payer, proof, before[index := pair]) && before[index := pair].Keys <= Eligible(proof)
    ensures |before[index := pair]| == |before| + 1
  {
  }

  lemma {:induction false} EveryPairBound(
    H: Hasher, payer: Key, proof: seq<Link>, remaining: seq<Meta>, j: nat) returns (i: nat)
    requires Distinct(ProofIds(H, proof)) && |remaining| % 2 == 0 && BindAll(H, payer, proof, remaining).Success?
    requires 2 * j + 1 < |remaining|
    ensures var bound := BindAll(H, payer, proof, remaining).value; i in bound && Supplies(remaining, j, bound[i])
    decreases |remaining|
  {
    var n := |remaining| - 2;
    var before := BindAll(H, payer, proof, remaining[..n]).value;
    var index := BoundPair(H, payer, proof, before, Pair(remaining[n], remaining[n + 1]));
    if 2 * j == n {
      i := index;
    } else {
      i := EveryPairBound(H, payer, proof, remaining[..n], j);
      assert i in before && i != index;
    }
  }

  /** Supplied pairs and parametric entries other than entry 0 correspond one to one, each
      pair at that entry's own addresses. */
  lemma BindIsBijection(H: Hasher, payer: Key, proof: seq<Link>, remaining: seq<Meta>)
    requires Bind(H, payer, proof, remaining).Success? && remaining != []
    ensures var bound := Bind(H, payer, proof, remaining).value;
            && bound.Keys == Eligible(proof)
            && (forall i | i in bound :: PairFor(H, payer, proof, i, bound[i]))
            && 2 * |bound| == |remaining|
            && (forall j | 0 <= j && 2 * j + 1 < |remaining| ::
                  exists i :: i in bound && Supplies(remaining, j, bound[i]))
  {
    BoundPairs(H, payer, proof, remaining);
    var bound := Bind(H, payer, proof, remaining).value;
    SubsetOfSameSize(bound.Keys, Eligible(proof));
    forall j | 0 <= j && 2 * j + 1 < |remaining|
      ensures exists i :: i in bound && Supplies(remaining, j, bound[i])
    {
      var i := EveryPairBound(H, payer, proof, remaining, j);
    }
  }

  // ----- The plan

  ghost predicate Earlier(order: seq<nat>, i: nat, j: nat) {
    exists x, y :: 0 <= x < y < |order| && order[x] == i && order[y] == j
  }

  lemma {:induction false} CreationsChosen(order: seq<nat>, requested: set<nat>, existing: set<nat>)
    ensures forall i :: i in Creations(order, requested, existing) <==> i in order && Creates(i, requested, existing)
    decreases |order|
  {
    if order != [] {
      var n := |order| - 1;
      CreationsChosen(order[..n], requested, existing);
      assert forall i :: i in order <==> i in order[..n] || i == order[n];
    }
  }

  /** Positions in the order of two consecutive choices, wherever they are. */
  lemma {:induction false} CreationsOrdered(order: seq<nat>, requested: set<nat>, existing: set<nat>, a: nat, b: nat)
    returns (x: nat, y: nat)
    requires a < b < |Creations(order, requested, existing)|
    ensures x < y < |order|
    ensures order[x] == Creations(order, requested, existing)[a] && order[y] == Creations(order, requested, existing)[b]
    decreases |order|
  {
    var n := |order| - 1;
    var before := Creations(order[..n], requested, existing);
    if b < |before| {
      x, y := CreationsOrdered(order[..n], requested, existing, a, b);
    } else {
      CreationsChosen(order[..n], requested, existing);
      assert before[a] in order[..n];
      x, y :| 0 <= x < n && order[..n][x] == before[a] && y == n;
    }
  }

  /** Exactly the requested missing entries other than entry 0, each once, in the order given. */
  lemma CreationsExact(order: seq<nat>, requested: set<nat>, existing: set<nat>)
    requires Distinct(order)
    ensures var cs := Creations(order, requested, existing);
            && Distinct(cs)
            && (forall i :: i in cs <==> i in order && Creates(i, requested, existing))
            && (forall a, b | 0 <= a < b < |cs| :: Earlier(order, cs[a], cs[b]))
  {
    CreationsChosen(order, requested, existing);
    var cs := Creations(order, requested, existing);
    forall a, b | 0 <= a < b < |cs|
      ensures Earlier(order, cs[a], cs[b]) && cs[a] != cs[b]
    {
      var x, y := CreationsOrdered(order, requested, existing, a, b);
      assert order[x] == cs[a] && order[y] == cs[b];
    }
  }

  lemma {:induction false} ExistingExact(H: Hasher, m: Accounts, payer: Key, proof: seq<Link>, bound: Pairs, n: nat)
    requires n <= |proof| && Existing(H, m, payer, proof, bound, n).Success?
    ensures forall i: nat :: i in Existing(H, m, payer, proof, bound, n).value
                        <==> i == 0 || (1 <= i < n && i in bound && At(m, bound[i].hash.address).owner == Program)
    ensures forall i | 1 <= i < n && i in bound :: ValidatePair(H, m, payer, proof[i], bound[i]).Success?
    decreases n
  {
    if n > 1 {
      ExistingExact(H, m, payer, proof, bound, n - 1);
    }
  }

  lemma {:induction false} ExistingSucceeds(H: Hasher, m: Accounts, payer: Key, proof: seq<Link>, bound: Pairs, n: nat)
    requires n <= |proof|
    requires forall i | 1 <= i < n && i in bound :: ValidatePair(H, m, payer, proof[i], bound[i]).Success?
    ensures Existing(H, m, payer, proof, bound, n).Success?
    decreases n
  {
    if n > 1 {
      ExistingSucceeds(H, m, payer, proof, bound, n - 1);
    }
  }

  // ----- Execution

  /** The payer's wallet, and the addresses of the records and votes that creating `indices` touches. */
  ghost function Touched(H: Hasher, payer: Key, proof: seq<Link>, indices: seq<nat>): set<Address>
    requires forall k | 0 <= k < |indices| :: indices[k] < |proof|
  {
    if indices == [] then {Wallet(payer)}
    else
      var n := |indices| - 1;
      var id := proof[indices[n]].record.Id(H);
      Touched(H, payer, proof, indices[..n]) + {HashPda(id), VotePda(payer, id)}
  }

  lemma {:induction false} TouchedAreTheirs(H: Hasher, payer: Key, proof: seq<Link>, indices: seq<nat>, id: Digest)
    requires forall k | 0 <= k < |indices| :: indices[k] < |proof|
    ensures Wallet(payer) in Touched(H, payer, proof, indices)
    ensures HashPda(id) in Touched(H, payer, proof, indices)
       <==> exists k :: 0 <= k < |indices| && proof[indices[k]].record.Id(H) == id
    ensures forall voter ::
      VotePda(voter, id) in Touched(H, payer, proof, indices)
      <==> voter == payer && HashPda(id) in Touched(H, payer, proof, indices)
    decreases |indices|
  {
    if indices != [] {
      var n := |indices| - 1;
      TouchedAreTheirs(H, payer, proof, indices[..n], id);
      if k :| 0 <= k < n && proof[indices[..n][k]].record.Id(H) == id {
        assert proof[indices[k]].record.Id(H) == id;
      }
      if k :| 0 <= k < |indices| && proof[indices[k]].record.Id(H) == id {
        assert k < n ==> proof[indices[..n][k]].record.Id(H) == id;
      }
    }
  }

  ghost predicate AllPaired(H: Hasher, payer: Key, proof: seq<Link>, bound: Pairs) {
    forall i | i in bound :: PairFor(H, payer, proof, i, bound[i])
  }

  /** The last creation of an execution, on its own. */
  lemma ExecutionLast(
    H: Hasher, m: Accounts, env: Env, payer: Key, proof: seq<Link>, bound: Pairs, creations: seq<nat>)
    returns (before: Accounts, after: Accounts, r: Record)
    requires Executable(proof, bound, creations) && AllPaired(H, payer, proof, bound) && creations != []
    requires Execute(H, m, env, payer, proof, bound, creations).Success?
    ensures r == proof[creations[|creations| - 1]].record
    ensures Execute(H, m, env, payer, proof, bound, creations[..|creations| - 1]) == Success(before)
    ensures Execute(H, m, env, payer, proof, bound, creations) == Success(after)
    ensures ChangesOnly(before, after, {HashPda(r.Id(H)), VotePda(payer, r.Id(H)), Wallet(payer)})
    ensures JustCreated(H, after, env, payer, r) && Vacant(At(before, HashPda(r.Id(H))))
    ensures At(after, Wallet(payer)) == At(before, Wallet(payer)).(lamports := At(after, Wallet(payer)).lamports)
  {
    var n := |creations| - 1;
    var last := creations[n];
    r := proof[last].record;
    before := Execute(H, m, env, payer, proof, bound, creations[..n]).value;
    after := Execute(H, m, env, payer, proof, bound, creations).value;
    CreatedOneMore(H, before, env, payer, bound[last], r);
  }

  /** Execution changes only the payer's wallet and the addresses of the records it creates. */
  lemma {:induction false} ExecutionChanges(
    H: Hasher, m: Accounts, env: Env, payer: Key, proof: seq<Link>, bound: Pairs, creations: seq<nat>)
    requires Executable(proof, bound, creations) && AllPaired(H, payer, proof, bound)
    requires Execute(H, m, env, payer, proof, bound, creations).Success?
    ensures var m' := Execute(H, m, env, payer, proof, bound, creations).value;
            && ChangesOnly(m, m', Touched(H, payer, proof, creations))
            && At(m', Wallet(payer)) == At(m, Wallet(payer)).(lamports := At(m', Wallet(payer)).lamports)
    decreases |creations|
  {
    if creations != [] {
      var init := creations[..|creations| - 1];
      ExecutionChanges(H, m, env, payer, proof, bound, init);
      var before, after, r := ExecutionLast(H, m, env, payer, proof, bound, creations);
      TouchedAreTheirs(H, payer, proof, init, r.Id(H));
      ChangesCompose(m, before, after, Touched(H, payer, proof, init),
                     {HashPda(r.Id(H)), VotePda(payer, r.Id(H)), Wallet(payer)}, Touched(H, payer, proof, creations));
    }
  }

  /** Each planned record was vacant and is created with its historical fields and one vote. */
  lemma {:induction false} ExecutionCreates(
    H: Hasher, m: Accounts, env: Env, payer: Key, proof: seq<Link>, bound: Pairs, creations: seq<nat>, k: nat)
    requires Executable(proof, bound, creations) && AllPaired(H, payer, proof, bound)
    requires Distinct(ProofIds(H, proof)) && Distinct(creations) && k < |creations|
    requires Execute(H, m, env, payer, proof, bound, creations).Success?
    ensures JustCreated(H, Execute(H, m, env, payer, proof, bound, creations).value, env, payer,
                      proof[creations[k]].record)
    ensures Vacant(At(m, HashPda(proof[creations[k]].record.Id(H))))
    decreases |creations|
  {
    var n := |creations| - 1;
    var before, after, r := ExecutionLast(H, m, env, payer, proof, bound, creations);
    if k < n {
      DistinctIds(H, proof, creations[k], creations[n]);
      ExecutionCreates(H, m, env, payer, proof, bound, creations[..n], k);
      CreatedStays(H, before, after, env, payer, proof[creations[k]].record, r.Id(H));
    } else {
      LastWasVacant(H, m, env, payer, proof, bound, creations);
    }
  }

  lemma LastWasVacant(H: Hasher, m: Accounts, env: Env, payer: Key, proof: seq<Link>, bound: Pairs, creations: seq<nat>)
    requires Executable(proof, bound, creations) && AllPaired(H, payer, proof, bound) && creations != []
    requires Distinct(ProofIds(H, proof)) && Distinct(creations)
    requires Execute(H, m, env, payer, proof, bound, creations).Success?
    ensures Vacant(At(m, HashPda(proof[creations[|creations| - 1]].record.Id(H))))
  {
    var before, after, r := ExecutionLast(H, m, env, payer, proof, bound, creations);
    ExecutionChanges(H, m, env, payer, proof, bound, creations[..|creations| - 1]);
    LastNotTouched(H, payer, proof, creations);
    assert At(before, HashPda(r.Id(H))) == At(m, HashPda(r.Id(H)));
  }

  lemma DistinctIds(H: Hasher, proof: seq<Link>, i: nat, j: nat)
    requires Distinct(ProofIds(H, proof)) && i < |proof| && j < |proof| && i != j
    ensures proof[i].record.Id(H) != proof[j].record.Id(H)
  {
    assert ProofIds(H, proof)[i] != ProofIds(H, proof)[j];
  }

  lemma LastNotTouched(H: Hasher, payer: Key, proof: seq<Link>, creations: seq<nat>)
    requires Distinct(ProofIds(H, proof)) && Distinct(creations) && creations != []
    requires forall k | 0 <= k < |creations| :: creations[k] < |proof|
    ensures var n := |creations| - 1;
            HashPda(proof[creations[n]].record.Id(H)) !in Touched(H, payer, proof, creations[..n])
  {
    var n := |creations| - 1;
    var id := proof[creations[n]].record.Id(H);
    TouchedAreTheirs(H, payer, proof, creations[..n], id);
    if k :| 0 <= k < n && proof[creations[..n][k]].record.Id(H) == id {
      DistinctIds(H, proof, creations[k], creations[n]);
    }
  }

  lemma ChangesCompose(
    m: Accounts, middle: Accounts, after: Accounts, s: set<Address>, t: set<Address>, all: set<Address>)
    requires ChangesOnly(m, middle, s) && ChangesOnly(middle, after, t) && s <= all && t <= all
    ensures ChangesOnly(m, after, all)
  {
  }

  lemma CreatedOneMore(H: Hasher, m: Accounts, env: Env, payer: Key, pair: Pair, r: Record)
    requires CreateWithInitialVote(H, m, env, payer, pair.hash.address, pair.vote.address, r).Success?
    ensures var m' := CreateWithInitialVote(H, m, env, payer, pair.hash.address, pair.vote.address, r).value;
            && ChangesOnly(m, m', {HashPda(r.Id(H)), VotePda(payer, r.Id(H)), Wallet(payer)})
            && JustCreated(H, m', env, payer, r) && Vacant(At(m, HashPda(r.Id(H))))
            && At(m', Wallet(payer)) == At(m, Wallet(payer)).(lamports := At(m', Wallet(payer)).lamports)
  {
    CreateWithInitialVoteEffect(H, m, env, payer, pair.hash.address, pair.vote.address, r, Lamports);
  }

  lemma CreatedStays(H: Hasher, m: Accounts, m': Accounts, env: Env, payer: Key, r: Record, other: Digest)
    requires JustCreated(H, m, env, payer, r) && r.Id(H) != other
    requires ChangesOnly(m, m', {HashPda(other), VotePda(payer, other), Wallet(payer)})
    ensures JustCreated(H, m', env, payer, r)
  {
    assert At(m', HashPda(r.Id(H))) == At(m, HashPda(r.Id(H)));
    assert At(m', VotePda(payer, r.Id(H))) == At(m, VotePda(payer, r.Id(H)));
  }

  // ----- The whole instruction

  /** The entries a successful restore creates, in creation order. */
  ghost function Created(H: Hasher, m: Accounts, payer: Key, proof: seq<Link>, remaining: seq<Meta>): seq<nat>
    requires Bind(H, payer, proof, remaining).Success? && Parse(H, proof).Success?
    requires Existing(H, m, payer, proof, Bind(H, payer, proof, remaining).value, |proof|).Success?
  {
    var bound := Bind(H, payer, proof, remaining).value;
    Creations(Parse(H, proof).value, bound.Keys, Existing(H, m, payer, proof, bound, |proof|).value)
  }

  lemma CreatedExactly(H: Hasher, m: Accounts, payer: Key, proof: seq<Link>, remaining: seq<Meta>)
    requires Bind(H, payer, proof, remaining).Success? && Parse(H, proof).Success?
    requires Existing(H, m, payer, proof, Bind(H, payer, proof, remaining).value, |proof|).Success?
    ensures Distinct(Created(H, m, payer, proof, remaining))
    ensures Bind(H, payer, proof, remaining).value.Keys <= Eligible(proof)
    ensures forall i :: i in Created(H, m, payer, proof, remaining)
                   <==> && i in Bind(H, payer, proof, remaining).value
                        && At(m, HashPda(proof[i].record.Id(H))).owner != Program
    ensures Executable(proof, Bind(H, payer, proof, remaining).value, Created(H, m, payer, proof, remaining))
    ensures AllPaired(H, payer, proof, Bind(H, payer, proof, remaining).value)
  {
    var bound, order := Bind(H, payer, proof, remaining).value, Parse(H, proof).value;
    var existing := Existing(H, m, payer, proof, bound, |proof|).value;
    ParsedOrder(H, proof);
    BoundPairs(H, payer, proof, remaining);
    ExistingExact(H, m, payer, proof, bound, |proof|);
    CreationsExact(order, bound.Keys, existing);
    CreationsExecutable(proof, order, bound, existing);
    forall i
      ensures i in Created(H, m, payer, proof, remaining)
         <==> i in bound && At(m, HashPda(proof[i].record.Id(H))).owner != Program
    {
      if i in bound {
        assert i in Eligible(proof) && PairFor(H, payer, proof, i, bound[i]);
        assert i in order;
      }
    }
  }

  ghost predicate RestoredExactly(
    H: Hasher, m: Accounts, m': Accounts, env: Env, payer: Key, proof: seq<Link>, bound: Pairs, created: seq<nat>)
    requires forall k | 0 <= k < |created| :: created[k] < |proof|
    requires bound.Keys <= Eligible(proof)
  {
    && Distinct(created)
    && (forall i :: i in created <==> i in bound && At(m, HashPda(proof[i].record.Id(H))).owner != Program)
    && (forall i | i in created ::
          JustCreated(H, m', env, payer, proof[i].record) && Vacant(At(m, HashPda(proof[i].record.Id(H)))))
    && ChangesOnly(m, m', Touched(H, payer, proof, created))
    && At(m', Wallet(payer)) == At(m, Wallet(payer)).(lamports := At(m', Wallet(payer)).lamports)
  }

  /** A restore creates exactly the bound entries that were missing, each once and with its
      historical fields; besides those records and their votes only the payer's balance changes. */
  lemma RestoreIsExact(
    H: Hasher, m: Accounts, env: Env, payer: Key, anchor: Address, proof: seq<Link>, remaining: seq<Meta>)
    requires Restore(H, m, env, payer, anchor, proof, remaining).Success?
    ensures var created, bound := Created(H, m, payer, proof, remaining), Bind(H, payer, proof, remaining).value;
            && (forall k | 0 <= k < |created| :: created[k] < |proof|)
            && bound.Keys <= Eligible(proof)
            && RestoredExactly(H, m, Restore(H, m, env, payer, anchor, proof, remaining).value, env, payer, proof,
                               bound, created)
  {
    var created, bound := Created(H, m, payer, proof, remaining), Bind(H, payer, proof, remaining).value;
    CreatedExactly(H, m, payer, proof, remaining);
    BoundPairs(H, payer, proof, remaining);
    ExecutionChanges(H, m, env, payer, proof, bound, created);
    forall i | i in created
      ensures JustCreated(H, Restore(H, m, env, payer, anchor, proof, remaining).value, env, payer, proof[i].record)
      ensures Vacant(At(m, HashPda(proof[i].record.Id(H))))
    {
      var k :| 0 <= k < |created| && created[k] == i;
      ExecutionCreates(H, m, env, payer, proof, bound, created, k);
    }
  }

  lemma {:induction false} NothingToCreate(order: seq<nat>, requested: set<nat>, existing: set<nat>)
    requires forall i | i in requested :: i in existing
    ensures Creations(order, requested, existing) == []
  {
    if order != [] {
      NothingToCreate(order[..|order| - 1], requested, existing);
    }
  }

  lemma StillCommitted(H: Hasher, proof: seq<Link>, link: Link, before: bool, now: bool)
    requires Committed(H, proof, link, before) && (before ==> now)
    ensures Committed(H, proof, link, now)
  {
  }

  lemma MoreExistingStillCommitted(H: Hasher, proof: seq<Link>, existing: set<nat>, more: set<nat>)
    requires Accepted(H, proof, existing) && existing <= more
    ensures Accepted(H, proof, more)
  {
    ValidatedExactlyWhenCommitted(H, proof, existing);
    ValidatedExactlyWhenCommitted(H, proof, more);
    forall i | 0 <= i < |proof|
      ensures Committed(H, proof, proof[i], i in more)
    {
      StillCommitted(H, proof, proof[i], i in existing, i in more);
    }
  }

  /** After a restore every bound pair validates as an existing record. */
  lemma PairNowExists(
    H: Hasher, m: Accounts, m': Accounts, env: Env, payer: Key, proof: seq<Link>, bound: Pairs, created: seq<nat>,
    i: nat)
    requires forall k | 0 <= k < |created| :: created[k] < |proof|
    requires bound.Keys <= Eligible(proof) && RestoredExactly(H, m, m', env, payer, proof, bound, created)
    requires i in bound && PairFor(H, payer, proof, i, bound[i]) && proof[i].record.createdAt != 0
    requires Distinct(ProofIds(H, proof)) && ValidatePair(H, m, payer, proof[i], bound[i]).Success?
    ensures ValidatePair(H, m', payer, proof[i], bound[i]) == Success(true)
    ensures At(m', bound[i].hash.address).owner == Program
  {
    var id := proof[i].record.Id(H);
    if i in created {
      assert JustCreated(H, m', env, payer, proof[i].record);
    } else {
      NotTouched(H, payer, proof, created, i);
      assert At(m', HashPda(id)) == At(m, HashPda(id)) && At(m', VotePda(payer, id)) == At(m, VotePda(payer, id));
    }
  }

  lemma NotTouched(H: Hasher, payer: Key, proof: seq<Link>, created: seq<nat>, i: nat)
    requires Distinct(ProofIds(H, proof)) && i < |proof| && i !in created
    requires forall k | 0 <= k < |created| :: created[k] < |proof|
    ensures HashPda(proof[i].record.Id(H)) !in Touched(H, payer, proof, created)
    ensures forall voter :: VotePda(voter, proof[i].record.Id(H)) !in Touched(H, payer, proof, created)
  {
    TouchedAreTheirs(H, payer, proof, created, proof[i].record.Id(H));
    forall k | 0 <= k < |created|
      ensures proof[created[k]].record.Id(H) != proof[i].record.Id(H)
    {
      DistinctIds(H, proof, created[k], i);
    }
  }

  lemma AnchorUntouched(
    H: Hasher, m: Accounts, m': Accounts, env: Env, payer: Key, proof: seq<Link>, bound: Pairs, created: seq<nat>)
    requires forall k | 0 <= k < |created| :: created[k] < |proof|
    requires bound.Keys <= Eligible(proof) && RestoredExactly(H, m, m', env, payer, proof, bound, created)
    requires Distinct(ProofIds(H, proof)) && proof != []
    ensures At(m', HashPda(proof[0].record.Id(H))) == At(m, HashPda(proof[0].record.Id(H)))
  {
    assert 0 !in Eligible(proof) && 0 !in created;
    NotTouched(H, payer, proof, created, 0);
  }

  /** Running the same restore again succeeds and changes nothing. */
  lemma RestoreIsIdempotent(
    H: Hasher, m: Accounts, env: Env, env': Env, payer: Key, anchor: Address, proof: seq<Link>, remaining: seq<Meta>)
    requires Restore(H, m, env, payer, anchor, proof, remaining).Success?
    ensures var m' := Restore(H, m, env, payer, anchor, proof, remaining).value;
            Restore(H, m', env', payer, anchor, proof, remaining) == Success(m')
  {
    var m' := Restore(H, m, env, payer, anchor, proof, remaining).value;
    var bound, order := Bind(H, payer, proof, remaining).value, Parse(H, proof).value;
    var created, existing := Created(H, m, payer, proof, remaining), Existing(H, m, payer, proof, bound, |proof|).value;
    RestoreIsExact(H, m, env, payer, anchor, proof, remaining);
    BoundPairs(H, payer, proof, remaining);
    ExistingExact(H, m, payer, proof, bound, |proof|);
    AnchorUntouched(H, m, m', env, payer, proof, bound, created);
    forall i | 1 <= i < |proof| && i in bound
      ensures ValidatePair(H, m', payer, proof[i], bound[i]) == Success(true)
      ensures At(m', bound[i].hash.address).owner == Program
    {
      CommittedAt(H, proof, existing, i);
      PairNowExists(H, m, m', env, payer, proof, bound, created, i);
    }
    ExistingSucceeds(H, m', payer, proof, bound, |proof|);
    ExistingExact(H, m', payer, proof, bound, |proof|);
    var existing' := Existing(H, m', payer, proof, bound, |proof|).value;
    MoreExistingStillCommitted(H, proof, existing, existing');
    NothingToCreate(order, bound.Keys, existing');
  }
}
