/** Sums over all accounts: balances, and the votes and claims that belong to one record. */
module Totals {
  import opened Encoding
  import opened Ledger

  datatype Quantity = Lamports | Votes(id: Digest) | Claims(id: Digest)

  function Share(q: Quantity, a: Address, account: AccountInfo): (r: nat)
    ensures account == Vacancy(0) ==> r == 0
  {
    match q
    case Lamports => account.lamports
    case Votes(id) => if a.VotePda? && a.id == id && account.owner == Program then 1 else 0
    case Claims(id) =>
      if a.VotePda? && a.id == id && account.owner == Program && account.data.VoteData? then account.data.vote.amount
      else 0
  }

  ghost function Total(m: Accounts, q: Quantity): nat {
    if m == map[] then 0
    else
      var a :| a in m;
      Share(q, a, m[a]) + Total(m - {a}, q)
  }

  lemma {:induction false} TotalWithout(m: Accounts, q: Quantity, a: Address)
    requires a in m
    ensures Total(m, q) == Share(q, a, m[a]) + Total(m - {a}, q)
    decreases |m|
  {
    var b :| b in m && Total(m, q) == Share(q, b, m[b]) + Total(m - {b}, q);
    if a != b {
      TotalWithout(m - {b}, q, a);
      TotalWithout(m - {a}, q, b);
      assert m - {b} - {a} == m - {a} - {b};
    }
  }

  /** Changing one account changes every sum by that account's share. */
  lemma TotalUpdated(m: Accounts, q: Quantity, a: Address, account: AccountInfo)
    ensures Total(m[a := account], q) == Total(m, q) - Share(q, a, At(m, a)) + Share(q, a, account)
  {
    var updated := m[a := account];
    TotalWithout(updated, q, a);
    assert updated - {a} == m - {a};
    if a in m {
      TotalWithout(m, q, a);
    } else {
      assert m - {a} == m;
    }
  }

  lemma ShareIsPart(m: Accounts, q: Quantity, a: Address)
    ensures Share(q, a, At(m, a)) <= Total(m, q)
  {
    if a in m {
      TotalWithout(m, q, a);
    }
  }

  lemma TwoSharesArePart(m: Accounts, q: Quantity, a: Address, b: Address)
    requires a != b
    ensures Share(q, a, At(m, a)) + Share(q, b, At(m, b)) <= Total(m, q)
  {
    if a in m {
      TotalWithout(m, q, a);
      ShareIsPart(m - {a}, q, b);
    } else {
      ShareIsPart(m, q, b);
    }
  }

  ghost function VotesFor(m: Accounts, id: Digest): set<Address> {
    set a | a in m && a.VotePda? && a.id == id && m[a].owner == Program
  }

  /** The sum of vote shares counts the vote accounts. */
  lemma {:induction false} VotesAreCounted(m: Accounts, id: Digest)
    ensures Total(m, Votes(id)) == |VotesFor(m, id)|
    decreases |m|
  {
    if m != map[] {
      var a :| a in m && Total(m, Votes(id)) == Share(Votes(id), a, m[a]) + Total(m - {a}, Votes(id));
      VotesAreCounted(m - {a}, id);
      var rest := VotesFor(m - {a}, id);
      assert a !in rest;
      if a in VotesFor(m, id) {
        assert VotesFor(m, id) == rest + {a} && |rest + {a}| == |rest| + 1;
        assert Share(Votes(id), a, m[a]) == 1;
      } else {
        assert VotesFor(m, id) == rest;
        assert Share(Votes(id), a, m[a]) == 0;
      }
    }
  }

  lemma SomeVoteExists(m: Accounts, id: Digest)
    requires Total(m, Votes(id)) > 0
    ensures exists a :: a in VotesFor(m, id)
  {
    VotesAreCounted(m, id);
    assert VotesFor(m, id) != {};
  }
}
