/** The restore preflight as it runs: loops that bind, validate and plan account pairs before
    anything is written. */
module Preflight {
  import opened Outcomes
  import opened Encoding
  import opened Records
  import opened Errors
  import opened Ledger
  import opened LedgerInvariant
  import opened ProofGraph
  import opened Restoring
  import opened RestoreEffects
  import opened CreationOutcomes
  import opened RestoreOutcomes

  // ----- Binding

  ghost predicate Indexes(H: Hasher, proof: seq<Link>, index: map<Digest, nat>) {
    && (forall id :: id in index <==> id in ProofIds(H, proof))
    && (forall id | id in index :: index[id] == IndexOf(ProofIds(H, proof), id))
  }

  method IndexByIdentity(H: Hasher, proof: seq<Link>) returns (r: Result<map<Digest, nat>, Error>)
    ensures r.Success? <==> Distinct(ProofIds(H, proof))
    ensures r.Failure? ==> r.error == RestoreProofDuplicate
    ensures r.Success? ==> Indexes(H, proof, r.value)
  {
    var index: map<Digest, nat> := map[];
    ghost var ids := ProofIds(H, proof);
    for i := 0 to |proof|
      invariant Distinct(ids[..i]) && index.Keys == Elements(ids[..i])
      invariant forall k | 0 <= k < i :: index[ids[k]] == k
    {
      var id := proof[i].record.Id(H);
      if id in index {
        ghost var k :| 0 <= k < i && ids[k] == id;
        return Failure(RestoreProofDuplicate);
      }
      index := index[id := i];
      assert ids[..i + 1] == ids[..i] + [id];
    }
    assert ids[..|proof|] == ids;
    forall id | id in index
      ensures index[id] == IndexOf(ids, id)
    {
      assert index[ids[IndexOf(ids, id)]] == IndexOf(ids, id);
    }
    r := Success(index);
  }

  lemma {:induction false} BindingFails(H: Hasher, payer: Key, proof: seq<Link>, remaining: seq<Meta>, n: nat)
    requires n <= |remaining| && n % 2 == 0 && |remaining| % 2 == 0 && BindAll(H, payer, proof, remaining[..n]).Failure?
    ensures BindAll(H, payer, proof, remaining) == BindAll(H, payer, proof, remaining[..n])
    decreases |remaining|
  {
    if n == |remaining| {
      assert remaining[..n] == remaining;
    } else {
      var init := remaining[..|remaining| - 2];
      assert init[..n] == remaining[..n];
      BindingFails(H, payer, proof, init, n);
    }
  }

  lemma BoundNext(H: Hasher, payer: Key, proof: seq<Link>, remaining: seq<Meta>, n: nat)
    requires n + 1 < |remaining| && BindAll(H, payer, proof, remaining[..n]).Success?
    ensures BindAll(H, payer, proof, remaining[..n + 2])
         == BindOne(H, payer, proof, BindAll(H, payer, proof, remaining[..n]).value,
                    Pair(remaining[n], remaining[n + 1]))
  {
    assert remaining[..n + 2][..n] == remaining[..n];
  }

  method BindPairs(H: Hasher, payer: Key, proof: seq<Link>, remaining: seq<Meta>) returns (r: Result<Pairs, Error>)
    ensures r == Bind(H, payer, proof, remaining)
  {
    if |proof| == 0 {
      return Failure(RestoreChainTooShort);
    }
    if |remaining| % 2 != 0 {
      return Failure(RestoreAccountsMisaligned);
    }
    var index :- IndexByIdentity(H, proof);
    var bound :- BindChunks(H, payer, proof, index, remaining);
    var expected := set i: nat | 1 <= i < |proof| && proof[i].params.Some?;
    if |remaining| != 0 && |bound| != |expected| {
      return Failure(RestoreAccountsMisaligned);
    }
    r := Success(bound);
  }

  method BindChunks(H: Hasher, payer: Key, proof: seq<Link>, index: map<Digest, nat>, remaining: seq<Meta>)
    returns (r: Result<Pairs, Error>)
    requires |remaining| % 2 == 0 && Indexes(H, proof, index)
    ensures r == BindAll(H, payer, proof, remaining)
  {
    var bound: Pairs, n := map[], 0;
    while n < |remaining|
      invariant n <= |remaining| && n % 2 == 0 && BindAll(H, payer, proof, remaining[..n]) == Success(bound)
    {
      var one := BindPair(H, payer, proof, index, bound, Pair(remaining[n], remaining[n + 1]));
      BoundNext(H, payer, proof, remaining, n);
      if one.Failure? {
        BindingFails(H, payer, proof, remaining, n + 2);
        return one;
      }
      bound, n := one.value, n + 2;
    }
    assert remaining[..n] == remaining;
    r := Success(bound);
  }

  method BindPair(H: Hasher, payer: Key, proof: seq<Link>, index: map<Digest, nat>, bound: Pairs, pair: Pair)
    returns (r: Result<Pairs, Error>)
    requires Indexes(H, proof, index)
    ensures r == BindOne(H, payer, proof, bound, pair)
  {
    if !pair.hash.address.HashPda? || pair.hash.address.id !in index {
      return Failure(RestoreProofMismatch);
    }
    var i := index[pair.hash.address.id];
    if i == 0 || proof[i].params.None? {
      return Failure(RestoreAccountsMisaligned);
    }
    if pair.vote.address != VotePda(payer, proof[i].record.Id(H)) {
      return Failure(InvalidHashSeeds);
    }
    if i in bound {
      return Failure(RestoreProofMismatch);
    }
    r := Success(bound[i := pair]);
  }

  // ----- Validation

  lemma {:induction false} ValidationFails(
    H: Hasher, m: Accounts, payer: Key, proof: seq<Link>, bound: Pairs, n: nat, all: nat)
    requires n <= all <= |proof| && Existing(H, m, payer, proof, bound, n).Failure?
    ensures Existing(H, m, payer, proof, bound, all) == Existing(H, m, payer, proof, bound, n)
    decreases all
  {
    if n < all {
      assert all > 1;
      ValidationFails(H, m, payer, proof, bound, n, all - 1);
    }
  }

  method ValidatePairs(
    H: Hasher, m: Accounts, payer: Key, proof: seq<Link>, bound: Pairs) returns (r: Result<set<nat>, Error>)
    requires proof != []
    ensures r == Existing(H, m, payer, proof, bound, |proof|)
    ensures Consistent(H, m) && AllPaired(H, payer, proof, bound) ==>
              && (r.Success? <==>
                    forall i | i in bound && 1 <= i < |proof| :: BoundAllowed(H, m, proof[i].record, bound[i]))
              && (r.Success? ==> forall i: nat ::
                    i in r.value <==>
                    i == 0 || (1 <= i < |proof| && i in bound && LiveMember(m, HashPda(proof[i].record.Id(H)))))
  {
    if Consistent(H, m) && AllPaired(H, payer, proof, bound) {
      ValidationOutcome(H, m, payer, proof, bound);
    }
    var existing: set<nat> := {0};
    for i := 1 to |proof|
      invariant Existing(H, m, payer, proof, bound, i) == Success(existing)
    {
      if i in bound {
        var one := ValidatePair(H, m, payer, proof[i], bound[i]);
        if one.Failure? {
          ValidationFails(H, m, payer, proof, bound, i + 1, |proof|);
          return Failure(one.error);
        }
        if one.value {
          existing := existing + {i};
        }
      }
    }
    r := Success(existing);
  }

  // ----- Planning

  datatype Decision = Nothing | Create

  function MaterializationDecision(isTip: bool, hasPair: bool, exists_: bool): Result<Decision, Error> {
    if isTip then if exists_ then Success(Nothing) else Failure(RestoreTipMismatch)
    else Success(if hasPair && !exists_ then Create else Nothing)
  }

  /** Dependency-first, the bound entries that do not exist; entry 0 must exist. */
  method PlanCreations(order: seq<nat>, requested: set<nat>, existing: set<nat>) returns (r: Result<seq<nat>, Error>)
    ensures r == if 0 in order && 0 !in existing then Failure(RestoreTipMismatch)
                 else Success(Creations(order, requested, existing))
  {
    var creations: seq<nat> := [];
    for k := 0 to |order|
      invariant creations == Creations(order[..k], requested, existing)
      invariant 0 !in existing ==> 0 !in order[..k]
    {
      assert order[..k + 1][..k] == order[..k];
      var index := order[k];
      var decision :- MaterializationDecision(index == 0, index in requested, index in existing);
      if decision.Create? {
        creations := creations + [index];
      }
    }
    assert order[..|order|] == order;
    r := Success(creations);
  }
}
