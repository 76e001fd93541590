/** What restoring a set of records costs, and that a funded payer's creations go through. */
module Funding {
  import opened Outcomes
  import opened Encoding
  import opened Records
  import opened Ledger
  import opened Totals
  import opened LedgerEffects
  import opened LedgerInvariant
  import opened Exit
  import opened Archives
  import opened Candidates

  // ----- Costs

  /** The rent of one archived record and of its first vote. */
  ghost function CostOf(rent: nat -> u64, nodes: Nodes, pda: Address): nat {
    if pda in nodes then VoteCost(rent, nodes[pda].record.source.Space()) else 0
  }

  ghost function Cost(rent: nat -> u64, nodes: Nodes, pdas: set<Address>): nat {
    if pdas == {} then 0
    else
      var pda :| pda in pdas;
      CostOf(rent, nodes, pda) + Cost(rent, nodes, pdas - {pda})
  }

  lemma {:induction false} CostWithout(rent: nat -> u64, nodes: Nodes, pdas: set<Address>, pda: Address)
    requires pda in pdas
    ensures Cost(rent, nodes, pdas) == CostOf(rent, nodes, pda) + Cost(rent, nodes, pdas - {pda})
    decreases |pdas|
  {
    var a :| a in pdas && Cost(rent, nodes, pdas) == CostOf(rent, nodes, a) + Cost(rent, nodes, pdas - {a});
    if a != pda {
      CostWithout(rent, nodes, pdas - {a}, pda);
      CostWithout(rent, nodes, pdas - {pda}, a);
      assert pdas - {a} - {pda} == pdas - {pda} - {a};
    }
  }

  // ----- Funded creations succeed

  ghost predicate CanPay(m: Accounts, payer: Key, amount: nat) {
    var wallet := At(m, Wallet(payer));
    wallet.owner == System && wallet.data == Empty && wallet.lamports >= amount
  }

  lemma ClaimSucceeds(m: Accounts, env: Env, payer: Key, destination: Address, space: nat, data: Data)
    requires !destination.Wallet? && Vacant(At(m, destination)) && Total(m, Lamports) < U64_LIMIT
    requires CanPay(m, payer, TopUp(m, env, destination, space))
    ensures CreateOrClaim(m, env, Wallet(payer), destination, space, data).Success?
  {
    TwoSharesArePart(m, Lamports, Wallet(payer), destination);
  }

  lemma CreationSucceeds(H: Hasher, m: Accounts, env: Env, payer: Key, r: Record)
    requires Consistent(H, m) && At(m, HashPda(r.Id(H))).owner != Program
    requires CanPay(m, payer, VoteCost(env.rent, r.source.Space()))
    ensures CreateWithInitialVote(H, m, env, payer, HashPda(r.Id(H)), VotePda(payer, r.Id(H)), r).Success?
  {
    var id, space := r.Id(H), r.source.Space();
    assert Placed(H, m, HashPda(id)) && Placed(H, m, VotePda(payer, id));
    if At(m, VotePda(payer, id)).owner == Program {
      VoteImpliesRecord(H, m, payer, id);
    }
    ClaimSucceeds(m, env, payer, HashPda(id), space, HashData(HashState(r, 1, space)));
    CreateHashEffect(H, m, env, payer, HashPda(id), r, Lamports);
    var created := CreateHash(H, m, env, payer, HashPda(id), r).value;
    assert At(created, VotePda(payer, id)) == At(m, VotePda(payer, id));
    ClaimSucceeds(created, env, payer, VotePda(payer, id), VOTE_INFO_SPACE,
                  VoteData(VoteState(payer, id, env.rent(space))));
  }

  // ----- A ledger in the middle of a plan

  ghost function LiveRecordAt(m: Accounts, pda: Address): Option<Record> {
    if At(m, pda).owner == Program && At(m, pda).data.HashData? then Some(At(m, pda).data.hash.record) else None
  }

  /** What the planner read is what the chain held; a failed read yields nothing. */
  ghost predicate ReadFrom(nodes: Nodes, context: Context, m: Accounts) {
    forall pda | pda in nodes ::
      LiveAt(context, pda) == if pda in context.readErrors then None else LiveRecordAt(m, pda)
  }

  ghost predicate AsReadOrBack(nodes: Nodes, context: Context, m: Accounts, pda: Address)
    requires pda in nodes
  {
    || LiveRecordAt(m, pda) == LiveAt(context, pda)
    || (LiveAt(context, pda).None? && LiveRecordAt(m, pda) == Some(nodes[pda].record))
  }

  /** Since planning, absent records may have come back as archived; nothing else moved. */
  ghost predicate Follows(nodes: Nodes, context: Context, m: Accounts) {
    forall pda | pda in nodes && pda !in context.readErrors :: AsReadOrBack(nodes, context, m, pda)
  }

  ghost function StillMissing(m: Accounts, expected: set<Address>): (r: set<Address>)
    ensures r <= expected
  {
    set pda | pda in expected && LiveRecordAt(m, pda).None?
  }

  /** Every expected creation is an archived record that was absent when read. */
  ghost predicate Absent(nodes: Nodes, context: Context, expected: set<Address>) {
    forall pda | pda in expected :: pda in nodes && pda !in context.readErrors && LiveAt(context, pda).None?
  }

  ghost predicate Ready(
    H: Hasher, m: Accounts, rent: nat -> u64, nodes: Nodes, context: Context, expected: set<Address>)
  {
    && Absent(nodes, context, expected)
    && Consistent(H, m) && Follows(nodes, context, m)
    && CanPay(m, context.payer, Cost(rent, nodes, StillMissing(m, expected)))
  }

  ghost predicate Grows(m: Accounts, m': Accounts) {
    forall id :: LiveRecordAt(m, HashPda(id)).Some? ==> LiveRecordAt(m', HashPda(id)) == LiveRecordAt(m, HashPda(id))
  }

  lemma MissingIsVacant(H: Hasher, m: Accounts, id: Digest)
    requires Consistent(H, m) && LiveRecordAt(m, HashPda(id)).None?
    ensures At(m, HashPda(id)).owner != Program && Vacant(At(m, HashPda(id)))
  {
    assert Placed(H, m, HashPda(id));
  }

  lemma OneLessMissing(m: Accounts, m': Accounts, expected: set<Address>, pda: Address)
    requires pda in expected && LiveRecordAt(m, pda).None? && LiveRecordAt(m', pda).Some?
    requires forall a | a in expected && a != pda :: LiveRecordAt(m', a) == LiveRecordAt(m, a)
    ensures StillMissing(m', expected) == StillMissing(m, expected) - {pda} && pda in StillMissing(m, expected)
  {
  }

  /** One expected creation: it succeeds, and the rest of the plan stays funded. */
  lemma CreationAdvances(
    H: Hasher, m: Accounts, env: Env, nodes: Nodes, context: Context, expected: set<Address>, r: Record)
    requires Ready(H, m, env.rent, nodes, context, expected) && r.createdAt != 0
    requires HashPda(r.Id(H)) in expected && nodes[HashPda(r.Id(H))].record == r
    requires LiveRecordAt(m, HashPda(r.Id(H))).None?
    requires forall a | a in nodes :: a.HashPda?
    ensures var id := r.Id(H);
            var created := CreateWithInitialVote(H, m, env, context.payer, HashPda(id), VotePda(context.payer, id), r);
            && created.Success? && Ready(H, created.value, env.rent, nodes, context, expected)
            && LiveRecordAt(created.value, HashPda(id)) == Some(r)
            && forall other | other != id ::
                 LiveRecordAt(created.value, HashPda(other)) == LiveRecordAt(m, HashPda(other))
  {
    var id, payer := r.Id(H), context.payer;
    var pda := HashPda(id);
    MissingIsVacant(H, m, id);
    CostWithout(env.rent, nodes, StillMissing(m, expected), pda);
    CreationSucceeds(H, m, env, payer, r);
    var m' := CreateWithInitialVote(H, m, env, payer, pda, VotePda(payer, id), r).value;
    CreationKeeps(H, m, env, payer, pda, VotePda(payer, id), r);
    CreationCost(H, m, env, payer, pda, VotePda(payer, id), r);
    CreateWithInitialVoteEffect(H, m, env, payer, pda, VotePda(payer, id), r, Lamports);
    forall other | other != id
      ensures LiveRecordAt(m', HashPda(other)) == LiveRecordAt(m, HashPda(other))
    {
      assert At(m', HashPda(other)) == At(m, HashPda(other));
    }
    OneLessMissing(m, m', expected, pda);
    forall a | a in nodes && a !in context.readErrors
      ensures AsReadOrBack(nodes, context, m', a)
    {
      assert AsReadOrBack(nodes, context, m, a);
    }
  }
}
