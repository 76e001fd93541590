/** When a restore with any accounts succeeds, stated from the caller's inputs and the ledger. */
module RestoreOutcomes {
  import opened Outcomes
  import opened Encoding
  import opened Records
  import opened Errors
  import opened Ledger
  import opened LedgerEffects
  import opened LedgerInvariant
  import opened ProofGraph
  import opened AnchorBinding
  import opened Restoring
  import opened RestoreEffects
  import opened Runs
  import opened CreationOutcomes

  // ----- The accounts handed in

  ghost function Slot(remaining: seq<Meta>, j: nat): Pair
    requires 2 * j + 1 < |remaining|
  {
    Pair(remaining[2 * j], remaining[2 * j + 1])
  }

  ghost predicate SlotTaken(H: Hasher, payer: Key, proof: seq<Link>, remaining: seq<Meta>, j: nat)
    requires 2 * j + 1 < |remaining|
  {
    exists i :: i in Eligible(proof) && PairFor(H, payer, proof, i, Slot(remaining, j))
  }

  ghost predicate SlotsDiffer(remaining: seq<Meta>, j: nat, k: nat)
    requires 2 * j + 1 < |remaining| && 2 * k + 1 < |remaining|
  {
    Slot(remaining, j).hash.address != Slot(remaining, k).hash.address
  }

  /** Every slot belongs to some entry, and no two to the same. */
  ghost predicate SlotsFit(H: Hasher, payer: Key, proof: seq<Link>, remaining: seq<Meta>) {
    && (forall j: nat | 2 * j + 1 < |remaining| :: SlotTaken(H, payer, proof, remaining, j))
    && (forall j: nat, k: nat | j < k && 2 * k + 1 < |remaining| :: SlotsDiffer(remaining, j, k))
  }

  /** One (record, vote) pair of accounts for every entry with parameters but the anchor, in any
      order, and no others. */
  ghost predicate PairsUp(H: Hasher, payer: Key, proof: seq<Link>, remaining: seq<Meta>) {
    |remaining| == 2 * |Eligible(proof)| && SlotsFit(H, payer, proof, remaining)
  }

  lemma BindOneOutcome(H: Hasher, payer: Key, proof: seq<Link>, before: Pairs, pair: Pair, i: nat)
    requires Distinct(ProofIds(H, proof)) && AllPaired(H, payer, proof, before)
    requires i in Eligible(proof) && PairFor(H, payer, proof, i, pair)
    requires forall k | k in before :: before[k].hash.address != pair.hash.address
    ensures BindOne(H, payer, proof, before, pair) == Success(before[i := pair])
  {
    assert ProofIds(H, proof)[i] == pair.hash.address.id;
    var index := IndexOf(ProofIds(H, proof), pair.hash.address.id);
    assert index == i;
  }

  ghost predicate InSomeSlot(remaining: seq<Meta>, n: nat, pair: Pair)
    requires 2 * n <= |remaining|
  {
    exists j: nat :: j < n && pair == Slot(remaining, j)
  }

  lemma NextSlotBinds(H: Hasher, payer: Key, proof: seq<Link>, remaining: seq<Meta>, n: nat, before: Pairs)
    returns (i: nat)
    requires Distinct(ProofIds(H, proof)) && 2 * n + 1 < |remaining| && SlotsFit(H, payer, proof, remaining)
    requires AllPaired(H, payer, proof, before)
    requires forall k | k in before :: InSomeSlot(remaining, n, before[k])
    ensures BindOne(H, payer, proof, before, Slot(remaining, n)) == Success(before[i := Slot(remaining, n)])
  {
    assert SlotTaken(H, payer, proof, remaining, n);
    i :| i in Eligible(proof) && PairFor(H, payer, proof, i, Slot(remaining, n));
    forall k | k in before
      ensures before[k].hash.address != Slot(remaining, n).hash.address
    {
      assert InSomeSlot(remaining, n, before[k]);
      var j: nat :| j < n && before[k] == Slot(remaining, j);
      assert SlotsDiffer(remaining, j, n);
    }
    BindOneOutcome(H, payer, proof, before, Slot(remaining, n), i);
  }

  lemma TwoMore(H: Hasher, payer: Key, proof: seq<Link>, remaining: seq<Meta>, n: nat)
    requires 2 * n + 1 < |remaining| && BindAll(H, payer, proof, remaining[..2 * n]).Success?
    ensures BindAll(H, payer, proof, remaining[..2 * n + 2])
         == BindOne(H, payer, proof, BindAll(H, payer, proof, remaining[..2 * n]).value, Slot(remaining, n))
  {
    assert remaining[..2 * n + 2][..2 * n] == remaining[..2 * n];
  }

  lemma StillInSlots(remaining: seq<Meta>, n: nat, before: Pairs, i: nat, after: Pairs)
    requires 2 * n + 1 < |remaining| && after == before[i := Slot(remaining, n)]
    requires forall k | k in before :: InSomeSlot(remaining, n, before[k])
    ensures forall k | k in after :: InSomeSlot(remaining, n + 1, after[k])
  {
    forall k | k in after
      ensures InSomeSlot(remaining, n + 1, after[k])
    {
      assert k != i ==> InSomeSlot(remaining, n, before[k]);
    }
  }

  /** The first `n` slots bind, each to an entry of its own. */
  ghost predicate BindsUpTo(H: Hasher, payer: Key, proof: seq<Link>, remaining: seq<Meta>, n: nat)
    requires 2 * n <= |remaining|
  {
    var bound := BindAll(H, payer, proof, remaining[..2 * n]);
    && bound.Success? && AllPaired(H, payer, proof, bound.value)
    && forall i | i in bound.value :: InSomeSlot(remaining, n, bound.value[i])
  }

  lemma BindsOneMore(H: Hasher, payer: Key, proof: seq<Link>, remaining: seq<Meta>, n: nat)
    requires Distinct(ProofIds(H, proof)) && 2 * n + 1 < |remaining| && SlotsFit(H, payer, proof, remaining)
    requires BindsUpTo(H, payer, proof, remaining, n)
    ensures BindsUpTo(H, payer, proof, remaining, n + 1)
  {
    var before := BindAll(H, payer, proof, remaining[..2 * n]).value;
    var i := NextSlotBinds(H, payer, proof, remaining, n, before);
    TwoMore(H, payer, proof, remaining, n);
    BoundPairs(H, payer, proof, remaining[..2 * n + 2]);
    StillInSlots(remaining, n, before, i, before[i := Slot(remaining, n)]);
  }

  lemma {:induction false} BoundFromSlots(H: Hasher, payer: Key, proof: seq<Link>, remaining: seq<Meta>, n: nat)
    requires Distinct(ProofIds(H, proof)) && 2 * n <= |remaining| && SlotsFit(H, payer, proof, remaining)
    ensures BindsUpTo(H, payer, proof, remaining, n)
    decreases n
  {
    if n > 0 {
      BoundFromSlots(H, payer, proof, remaining, n - 1);
      BindsOneMore(H, payer, proof, remaining, n - 1);
    }
  }

  lemma {:induction false} BoundSlotsDiffer(
    H: Hasher, payer: Key, proof: seq<Link>, remaining: seq<Meta>, j: nat, k: nat)
    requires Distinct(ProofIds(H, proof)) && |remaining| % 2 == 0 && BindAll(H, payer, proof, remaining).Success?
    requires j < k && 2 * k + 1 < |remaining|
    ensures SlotsDiffer(remaining, j, k)
    decreases |remaining|
  {
    var n := |remaining| - 2;
    var before := BindAll(H, payer, proof, remaining[..n]).value;
    if 2 * k == n {
      var index := BoundPair(H, payer, proof, before, Pair(remaining[n], remaining[n + 1]));
      var i := EveryPairBound(H, payer, proof, remaining[..n], j);
      BoundPairs(H, payer, proof, remaining[..n]);
      assert PairFor(H, payer, proof, i, before[i]);
      DistinctIds(H, proof, i, index);
    } else {
      BoundSlotsDiffer(H, payer, proof, remaining[..n], j, k);
    }
  }

  /** The entries that get accounts at all. */
  ghost function Wanted(proof: seq<Link>, remaining: seq<Meta>): set<nat> {
    if remaining == [] then {} else Eligible(proof)
  }

  lemma PairedIsBound(H: Hasher, payer: Key, proof: seq<Link>, remaining: seq<Meta>)
    requires Distinct(ProofIds(H, proof)) && proof != [] && PairsUp(H, payer, proof, remaining)
    ensures Bind(H, payer, proof, remaining).Success?
    ensures forall i | i in Bind(H, payer, proof, remaining).value ::
              InSomeSlot(remaining, |remaining| / 2, Bind(H, payer, proof, remaining).value[i])
  {
    BoundFromSlots(H, payer, proof, remaining, |Eligible(proof)|);
    assert remaining[..2 * |Eligible(proof)|] == remaining;
    BoundPairs(H, payer, proof, remaining);
  }

  /** Binding succeeds exactly when the accounts pair up, and then gives each entry its own slot. */
  lemma BindOutcome(H: Hasher, payer: Key, proof: seq<Link>, remaining: seq<Meta>)
    requires proof != [] && Distinct(ProofIds(H, proof))
    ensures Bind(H, payer, proof, remaining).Success? <==> remaining == [] || PairsUp(H, payer, proof, remaining)
    ensures Bind(H, payer, proof, remaining).Success? ==>
              var bound := Bind(H, payer, proof, remaining).value;
              && bound.Keys == Wanted(proof, remaining) && AllPaired(H, payer, proof, bound)
              && forall i | i in bound :: InSomeSlot(remaining, |remaining| / 2, bound[i])
  {
    if PairsUp(H, payer, proof, remaining) {
      PairedIsBound(H, payer, proof, remaining);
    }
    if remaining != [] && Bind(H, payer, proof, remaining).Success? {
      BoundPairsUp(H, payer, proof, remaining);
      PairedIsBound(H, payer, proof, remaining);
    }
  }

  lemma BoundPairsUp(H: Hasher, payer: Key, proof: seq<Link>, remaining: seq<Meta>)
    requires Distinct(ProofIds(H, proof)) && remaining != [] && Bind(H, payer, proof, remaining).Success?
    ensures PairsUp(H, payer, proof, remaining)
    ensures Bind(H, payer, proof, remaining).value.Keys == Eligible(proof)
    ensures AllPaired(H, payer, proof, Bind(H, payer, proof, remaining).value)
  {
    BindIsBijection(H, payer, proof, remaining);
    var bound := Bind(H, payer, proof, remaining).value;
    assert |bound.Keys| == |bound|;
    forall j: nat | 2 * j + 1 < |remaining|
      ensures SlotTaken(H, payer, proof, remaining, j)
    {
      var i :| i in bound && Supplies(remaining, j, bound[i]);
      assert PairFor(H, payer, proof, i, Slot(remaining, j));
    }
    forall j: nat, k: nat | j < k && 2 * k + 1 < |remaining|
      ensures SlotsDiffer(remaining, j, k)
    {
      BoundSlotsDiffer(H, payer, proof, remaining, j, k);
    }
  }

  // ----- Writable accounts

  /** Both accounts of this record were handed in writable. */
  ghost predicate MayWrite(remaining: seq<Meta>, payer: Key, id: Digest) {
    Meta(HashPda(id), true) in remaining && Meta(VotePda(payer, id), true) in remaining
  }

  /** A record address occurs only in its own slot. */
  lemma MetaInSlot(H: Hasher, payer: Key, proof: seq<Link>, remaining: seq<Meta>, i: nat, pair: Pair, meta: Meta)
    requires Distinct(ProofIds(H, proof)) && PairsUp(H, payer, proof, remaining)
    requires InSomeSlot(remaining, |remaining| / 2, pair) && PairFor(H, payer, proof, i, pair)
    requires meta in remaining && (meta.address == pair.hash.address || meta.address == pair.vote.address)
    ensures meta == pair.hash || meta == pair.vote
  {
    var p :| 0 <= p < |remaining| && remaining[p] == meta;
    var k := p / 2;
    assert 2 * k + 1 < |remaining|;
    assert SlotTaken(H, payer, proof, remaining, k);
    var i' :| i' in Eligible(proof) && PairFor(H, payer, proof, i', Slot(remaining, k));
    var j: nat :| 2 * j + 1 < |remaining| && pair == Slot(remaining, j);
    assert meta == Slot(remaining, k).hash || meta == Slot(remaining, k).vote;
    SameSlot(H, payer, proof, remaining, j, k);
  }

  lemma SameSlot(H: Hasher, payer: Key, proof: seq<Link>, remaining: seq<Meta>, j: nat, k: nat)
    requires SlotsFit(H, payer, proof, remaining) && 2 * j + 1 < |remaining| && 2 * k + 1 < |remaining|
    requires Slot(remaining, j).hash.address == Slot(remaining, k).hash.address
    ensures j == k
  {
    assert !SlotsDiffer(remaining, j, k) && !SlotsDiffer(remaining, k, j);
  }

  lemma WritablePair(H: Hasher, payer: Key, proof: seq<Link>, remaining: seq<Meta>, i: nat, pair: Pair)
    requires Distinct(ProofIds(H, proof)) && PairsUp(H, payer, proof, remaining)
    requires InSomeSlot(remaining, |remaining| / 2, pair) && PairFor(H, payer, proof, i, pair)
    ensures pair.hash.writable && pair.vote.writable <==> MayWrite(remaining, payer, proof[i].record.Id(H))
  {
    var id := proof[i].record.Id(H);
    assert pair.hash in remaining && pair.vote in remaining;
    if MayWrite(remaining, payer, id) {
      MetaInSlot(H, payer, proof, remaining, i, pair, Meta(HashPda(id), true));
      MetaInSlot(H, payer, proof, remaining, i, pair, Meta(VotePda(payer, id), true));
    }
  }

  // ----- Preflight

  ghost predicate LiveAs(m: Accounts, pda: Address, r: Record) {
    LiveMember(m, pda) && At(m, pda).data.hash.record == r
  }

  lemma AnchorOutcome(H: Hasher, m: Accounts, anchor: Address, tip: Link)
    requires Consistent(H, m)
    ensures ValidateAnchor(H, m, anchor, tip).Pass? <==> LiveAs(m, anchor, tip.record)
  {
    assert Placed(H, m, anchor);
  }

  /** A pair passes exactly when its record is live as the proof states, or missing with both
      accounts writable. */
  lemma PairOutcome(H: Hasher, m: Accounts, payer: Key, link: Link, pair: Pair)
    requires Consistent(H, m)
    requires pair.hash.address == HashPda(link.record.Id(H)) && pair.vote.address == VotePda(payer, link.record.Id(H))
    ensures var outcome, live := ValidatePair(H, m, payer, link, pair), LiveMember(m, pair.hash.address);
            && (live ==> At(m, pair.hash.address).owner == Program)
            && (outcome.Success? <==>
                  if live then LiveAs(m, pair.hash.address, link.record)
                  else pair.hash.writable && pair.vote.writable)
            && (outcome.Success? ==> outcome.value == live)
            && (!live && outcome.Failure? ==> outcome == Failure(ConstraintMut))
            && (live && outcome.Failure? ==> outcome == Failure(Conflict(m, pair.hash.address, link.record)))
  {
    assert Placed(H, m, pair.hash.address) && Placed(H, m, pair.vote.address);
    if At(m, pair.vote.address).owner == Program {
      VoteImpliesRecord(H, m, payer, link.record.Id(H));
    }
  }

  /** How another live incarnation is reported. */
  ghost function Conflict(m: Accounts, pda: Address, r: Record): Error
    requires LiveMember(m, pda)
  {
    var live := At(m, pda).data.hash.record;
    if live.hash != r.hash || live.source != r.source then RestoreProofMismatch else RestoreTimestampMismatch
  }

  ghost predicate EntryAllowed(H: Hasher, m: Accounts, payer: Key, r: Record, remaining: seq<Meta>) {
    var pda := HashPda(r.Id(H));
    if LiveMember(m, pda) then LiveAs(m, pda, r) else MayWrite(remaining, payer, r.Id(H))
  }

  ghost function LiveWanted(H: Hasher, m: Accounts, proof: seq<Link>, remaining: seq<Meta>): set<nat> {
    set i | i in Wanted(proof, remaining) && LiveMember(m, HashPda(proof[i].record.Id(H)))
  }

  ghost function MissingWanted(H: Hasher, m: Accounts, proof: seq<Link>, remaining: seq<Meta>): set<nat> {
    set i | i in Wanted(proof, remaining) && !LiveMember(m, HashPda(proof[i].record.Id(H)))
  }

  lemma {:induction false} ExistingStops(
    H: Hasher, m: Accounts, payer: Key, proof: seq<Link>, bound: Pairs, n: nat, i: nat)
    requires 1 <= i < n <= |proof| && i in bound && ValidatePair(H, m, payer, proof[i], bound[i]).Failure?
    requires forall k | 1 <= k < i && k in bound :: ValidatePair(H, m, payer, proof[k], bound[k]).Success?
    ensures Existing(H, m, payer, proof, bound, n)
         == Failure(ValidatePair(H, m, payer, proof[i], bound[i]).error)
    decreases n
  {
    if n == i + 1 {
      ExistingSucceeds(H, m, payer, proof, bound, i);
    } else {
      ExistingStops(H, m, payer, proof, bound, n - 1, i);
    }
  }

  /** Entry `i` and the accounts bound to it: live as stated, or missing and both writable. */
  ghost predicate BoundAllowed(H: Hasher, m: Accounts, r: Record, pair: Pair) {
    if LiveMember(m, HashPda(r.Id(H))) then LiveAs(m, HashPda(r.Id(H)), r)
    else pair.hash.writable && pair.vote.writable
  }

  /** All bound accounts pass exactly when each entry is allowed; then the live ones exist. */
  lemma ValidationOutcome(H: Hasher, m: Accounts, payer: Key, proof: seq<Link>, bound: Pairs)
    requires Consistent(H, m) && AllPaired(H, payer, proof, bound)
    ensures var existing := Existing(H, m, payer, proof, bound, |proof|);
            && (existing.Success? <==>
                  forall i | i in bound && 1 <= i < |proof| :: BoundAllowed(H, m, proof[i].record, bound[i]))
            && (existing.Success? ==> forall i: nat ::
                  i in existing.value <==>
                  i == 0 || (1 <= i < |proof| && i in bound && LiveMember(m, HashPda(proof[i].record.Id(H)))))
  {
    forall i | i in bound && 1 <= i < |proof|
      ensures ValidatePair(H, m, payer, proof[i], bound[i]).Success? <==>
              BoundAllowed(H, m, proof[i].record, bound[i])
      ensures LiveMember(m, HashPda(proof[i].record.Id(H))) <==> At(m, bound[i].hash.address).owner == Program
    {
      assert PairFor(H, payer, proof, i, bound[i]);
      PairOutcome(H, m, payer, proof[i], bound[i]);
      assert Placed(H, m, bound[i].hash.address);
    }
    if Existing(H, m, payer, proof, bound, |proof|).Success? {
      ExistingExact(H, m, payer, proof, bound, |proof|);
    } else if forall i | i in bound && 1 <= i < |proof| :: BoundAllowed(H, m, proof[i].record, bound[i]) {
      ExistingSucceeds(H, m, payer, proof, bound, |proof|);
    }
  }

  lemma BoundPairOutcome(H: Hasher, m: Accounts, payer: Key, proof: seq<Link>, remaining: seq<Meta>, i: nat)
    requires Consistent(H, m) && Distinct(ProofIds(H, proof)) && proof != [] && i in Wanted(proof, remaining)
    requires Bind(H, payer, proof, remaining).Success?
    ensures var bound := Bind(H, payer, proof, remaining).value;
            && i in bound && i < |proof| && bound[i].hash.address == HashPda(proof[i].record.Id(H))
            && var outcome := ValidatePair(H, m, payer, proof[i], bound[i]);
            && (outcome.Success? <==> EntryAllowed(H, m, payer, proof[i].record, remaining))
            && (outcome.Success? ==> outcome.value == LiveMember(m, HashPda(proof[i].record.Id(H))))
            && (LiveMember(m, HashPda(proof[i].record.Id(H))) <==> At(m, bound[i].hash.address).owner == Program)
            && (outcome.Failure? ==> outcome.error == EntryError(H, m, proof[i].record))
  {
    BindOutcome(H, payer, proof, remaining);
    var bound := Bind(H, payer, proof, remaining).value;
    assert PairFor(H, payer, proof, i, bound[i]);
    PairOutcome(H, m, payer, proof[i], bound[i]);
    WritablePair(H, payer, proof, remaining, i, bound[i]);
    assert Placed(H, m, bound[i].hash.address);
  }

  /** Why an entry stops the restore. */
  ghost function EntryError(H: Hasher, m: Accounts, r: Record): Error {
    if LiveMember(m, HashPda(r.Id(H))) then Conflict(m, HashPda(r.Id(H)), r) else ConstraintMut
  }

  ghost predicate AllAllowed(H: Hasher, m: Accounts, payer: Key, proof: seq<Link>, remaining: seq<Meta>) {
    forall i | i in Wanted(proof, remaining) :: EntryAllowed(H, m, payer, proof[i].record, remaining)
  }

  lemma ExistingOutcome(H: Hasher, m: Accounts, payer: Key, proof: seq<Link>, remaining: seq<Meta>)
    requires Consistent(H, m) && Distinct(ProofIds(H, proof)) && proof != []
    requires Bind(H, payer, proof, remaining).Success?
    ensures var existing := Existing(H, m, payer, proof, Bind(H, payer, proof, remaining).value, |proof|);
            && (existing.Success? <==> AllAllowed(H, m, payer, proof, remaining))
            && (existing.Success? ==> existing.value == {0} + LiveWanted(H, m, proof, remaining))
  {
    BindOutcome(H, payer, proof, remaining);
    var bound := Bind(H, payer, proof, remaining).value;
    if AllAllowed(H, m, payer, proof, remaining) {
      forall i | 1 <= i < |proof| && i in bound
        ensures ValidatePair(H, m, payer, proof[i], bound[i]).Success?
      {
        BoundPairOutcome(H, m, payer, proof, remaining, i);
      }
      ExistingSucceeds(H, m, payer, proof, bound, |proof|);
    }
    if Existing(H, m, payer, proof, bound, |proof|).Success? {
      ExistingExact(H, m, payer, proof, bound, |proof|);
      ExistingIsLive(H, m, payer, proof, remaining);
    }
  }

  lemma ExistingIsLive(H: Hasher, m: Accounts, payer: Key, proof: seq<Link>, remaining: seq<Meta>)
    requires Consistent(H, m) && Distinct(ProofIds(H, proof)) && proof != []
    requires Bind(H, payer, proof, remaining).Success?
    requires Existing(H, m, payer, proof, Bind(H, payer, proof, remaining).value, |proof|).Success?
    ensures AllAllowed(H, m, payer, proof, remaining)
    ensures Existing(H, m, payer, proof, Bind(H, payer, proof, remaining).value, |proof|).value
         == {0} + LiveWanted(H, m, proof, remaining)
  {
    BindOutcome(H, payer, proof, remaining);
    var bound := Bind(H, payer, proof, remaining).value;
    ExistingExact(H, m, payer, proof, bound, |proof|);
    forall i | i in Wanted(proof, remaining)
      ensures EntryAllowed(H, m, payer, proof[i].record, remaining)
      ensures i in bound && (LiveMember(m, HashPda(proof[i].record.Id(H))) <==>
                             At(m, bound[i].hash.address).owner == Program)
    {
      BoundPairOutcome(H, m, payer, proof, remaining, i);
    }
  }

  // ----- Funding every missing record

  ghost function PriceOf(H: Hasher, m: Accounts, env: Env, payer: Key, r: Record): nat {
    Price(m, env, payer, r.Id(H), r.source.Space())
  }

  ghost function Due(H: Hasher, m: Accounts, env: Env, payer: Key, proof: seq<Link>, indices: set<nat>): nat
    requires forall i | i in indices :: i < |proof|
  {
    if indices == {} then 0
    else
      var i :| i in indices;
      PriceOf(H, m, env, payer, proof[i].record) + Due(H, m, env, payer, proof, indices - {i})
  }

  lemma {:induction false} DueWithout(
    H: Hasher, m: Accounts, env: Env, payer: Key, proof: seq<Link>, indices: set<nat>, i: nat)
    requires i in indices && forall k | k in indices :: k < |proof|
    ensures Due(H, m, env, payer, proof, indices)
         == PriceOf(H, m, env, payer, proof[i].record) + Due(H, m, env, payer, proof, indices - {i})
    decreases |indices|
  {
    var k :| k in indices && Due(H, m, env, payer, proof, indices)
                             == PriceOf(H, m, env, payer, proof[k].record)
                                + Due(H, m, env, payer, proof, indices - {k});
    if k != i {
      DueWithout(H, m, env, payer, proof, indices - {k}, i);
      DueWithout(H, m, env, payer, proof, indices - {i}, k);
      assert indices - {k} - {i} == indices - {i} - {k};
    }
  }

  ghost predicate ChargesForRecord(H: Hasher, m: Accounts, env: Env, payer: Key, r: Record) {
    ChargesFor(m, env, payer, r.Id(H), r.source.Space())
  }

  /** The payer holds what all these records and votes still need. */
  ghost predicate CanFundAll(H: Hasher, m: Accounts, env: Env, payer: Key, proof: seq<Link>, indices: set<nat>)
    requires forall i | i in indices :: i < |proof|
  {
    && At(m, Wallet(payer)).lamports >= Due(H, m, env, payer, proof, indices)
    && ((exists i :: i in indices && ChargesForRecord(H, m, env, payer, proof[i].record)) ==>
          Plain(At(m, Wallet(payer))))
  }

  lemma FundOneMore(H: Hasher, m: Accounts, env: Env, payer: Key, proof: seq<Link>, indices: set<nat>, i: nat)
    requires i !in indices && i < |proof| && forall k | k in indices :: k < |proof|
    ensures Due(H, m, env, payer, proof, indices + {i})
         == Due(H, m, env, payer, proof, indices) + PriceOf(H, m, env, payer, proof[i].record)
    ensures CanFundAll(H, m, env, payer, proof, indices + {i}) <==>
            && CanFundAll(H, m, env, payer, proof, indices)
            && At(m, Wallet(payer)).lamports >= Due(H, m, env, payer, proof, indices + {i})
            && (ChargesForRecord(H, m, env, payer, proof[i].record) ==> Plain(At(m, Wallet(payer))))
  {
    DueWithout(H, m, env, payer, proof, indices + {i}, i);
    assert indices + {i} - {i} == indices;
  }

  /** After creating others, one more record costs what it did before. */
  lemma PriceKept(H: Hasher, m: Accounts, before: Accounts, env: Env, payer: Key, proof: seq<Link>, done: seq<nat>,
                  i: nat)
    requires (forall k | 0 <= k < |done| :: done[k] < |proof|) && i < |proof| && i !in done
    requires Distinct(ProofIds(H, proof)) && ChangesOnly(m, before, Touched(H, payer, proof, done))
    ensures At(before, HashPda(proof[i].record.Id(H))) == At(m, HashPda(proof[i].record.Id(H)))
    ensures PriceOf(H, before, env, payer, proof[i].record) == PriceOf(H, m, env, payer, proof[i].record)
    ensures ChargesForRecord(H, before, env, payer, proof[i].record) <==>
            ChargesForRecord(H, m, env, payer, proof[i].record)
  {
    NotTouched(H, payer, proof, done, i);
    var id := proof[i].record.Id(H);
    assert At(before, VotePda(payer, id)) == At(m, VotePda(payer, id));
  }

  /** These entries can be created together: each once, each missing, at its own addresses. */
  ghost predicate Creatable(H: Hasher, m: Accounts, payer: Key, proof: seq<Link>, bound: Pairs, creations: seq<nat>) {
    && Executable(proof, bound, creations) && AllPaired(H, payer, proof, bound)
    && Distinct(ProofIds(H, proof)) && Distinct(creations)
    && forall k | 0 <= k < |creations| ::
         proof[creations[k]].record.createdAt != 0
         && At(m, HashPda(proof[creations[k]].record.Id(H))).owner != Program
  }

  lemma ElementsSplit(s: seq<nat>)
    requires s != [] && Distinct(s)
    ensures Elements(s) == Elements(s[..|s| - 1]) + {s[|s| - 1]} && s[|s| - 1] !in Elements(s[..|s| - 1])
  {
    assert s == s[..|s| - 1] + [s[|s| - 1]];
    forall k | 0 <= k < |s| - 1
      ensures s[k] != s[|s| - 1]
    {
    }
  }

  /** The payer holds what is left after paying `due`. */
  ghost predicate Paid(m: Accounts, after: Accounts, payer: Key, due: nat) {
    var w := Wallet(payer);
    due <= At(m, w).lamports && At(after, w) == At(m, w).(lamports := At(m, w).lamports - due)
  }

  /** Executing creations succeeds exactly when the payer can fund them all. */
  ghost predicate ExecutesExactly(
    H: Hasher, m: Accounts, env: Env, payer: Key, proof: seq<Link>, bound: Pairs, creations: seq<nat>)
    requires Executable(proof, bound, creations)
  {
    var outcome, due := Execute(H, m, env, payer, proof, bound, creations),
                        Due(H, m, env, payer, proof, Elements(creations));
    && (outcome.Success? <==> CanFundAll(H, m, env, payer, proof, Elements(creations)))
    && (outcome.Success? ==> Paid(m, outcome.value, payer, due))
  }

  lemma ExecuteUnfolds(
    H: Hasher, m: Accounts, before: Accounts, env: Env, payer: Key, proof: seq<Link>, bound: Pairs,
    creations: seq<nat>)
    requires Executable(proof, bound, creations) && AllPaired(H, payer, proof, bound) && creations != []
    requires Execute(H, m, env, payer, proof, bound, creations[..|creations| - 1]) == Success(before)
    ensures var r := proof[creations[|creations| - 1]].record;
            Execute(H, m, env, payer, proof, bound, creations) ==
            CreateWithInitialVote(H, before, env, payer, HashPda(r.Id(H)), VotePda(payer, r.Id(H)), r)
  {
    var i := creations[|creations| - 1];
    assert PairFor(H, payer, proof, i, bound[i]);
  }

  /** One more creation after others, judged on the ledger they started from. */
  lemma CreationAfter(
    H: Hasher, m: Accounts, before: Accounts, env: Env, payer: Key, proof: seq<Link>, done: seq<nat>, i: nat, due: nat)
    requires (forall k | 0 <= k < |done| :: done[k] < |proof|) && i < |proof| && i !in done
    requires Distinct(ProofIds(H, proof)) && ChangesOnly(m, before, Touched(H, payer, proof, done))
    requires Consistent(H, before) && proof[i].record.createdAt != 0 && Paid(m, before, payer, due)
    requires At(m, HashPda(proof[i].record.Id(H))).owner != Program
    ensures var r := proof[i].record;
            var created := CreateWithInitialVote(H, before, env, payer, HashPda(r.Id(H)), VotePda(payer, r.Id(H)), r);
            && (created.Success? <==>
                  && At(m, Wallet(payer)).lamports >= due + PriceOf(H, m, env, payer, r)
                  && (ChargesForRecord(H, m, env, payer, r) ==> Plain(At(m, Wallet(payer)))))
            && (created.Success? ==> Paid(m, created.value, payer, due + PriceOf(H, m, env, payer, r)))
  {
    var r := proof[i].record;
    PriceKept(H, m, before, env, payer, proof, done, i);
    CreationOutcome(H, before, env, payer, HashPda(r.Id(H)), VotePda(payer, r.Id(H)), r);
  }

  /** The ledger on which the last creation starts. */
  lemma BeforeLast(
    H: Hasher, m: Accounts, env: Env, payer: Key, proof: seq<Link>, bound: Pairs, creations: seq<nat>)
    requires Consistent(H, m) && Creatable(H, m, payer, proof, bound, creations) && creations != []
    requires Execute(H, m, env, payer, proof, bound, creations[..|creations| - 1]).Success?
    ensures var init, r := creations[..|creations| - 1], proof[creations[|creations| - 1]].record;
            var before := Execute(H, m, env, payer, proof, bound, init).value;
            && Consistent(H, before) && ChangesOnly(m, before, Touched(H, payer, proof, init))
            && r.createdAt != 0 && At(m, HashPda(r.Id(H))).owner != Program
  {
    var init := creations[..|creations| - 1];
    ExecutionKeeps(H, m, env, payer, proof, bound, init);
    ExecutionChanges(H, m, env, payer, proof, bound, init);
  }

  lemma LastExecutes(
    H: Hasher, m: Accounts, env: Env, payer: Key, proof: seq<Link>, bound: Pairs, creations: seq<nat>)
    requires Consistent(H, m) && Creatable(H, m, payer, proof, bound, creations) && creations != []
    requires var init := creations[..|creations| - 1];
             && ExecutesExactly(H, m, env, payer, proof, bound, init)
             && Execute(H, m, env, payer, proof, bound, init).Success?
    ensures ExecutesExactly(H, m, env, payer, proof, bound, creations)
  {
    var init, i := creations[..|creations| - 1], creations[|creations| - 1];
    var before := Execute(H, m, env, payer, proof, bound, init).value;
    BeforeLast(H, m, env, payer, proof, bound, creations);
    ElementsSplit(creations);
    FundOneMore(H, m, env, payer, proof, Elements(init), i);
    CreationAfter(H, m, before, env, payer, proof, init, i, Due(H, m, env, payer, proof, Elements(init)));
    ExecuteUnfolds(H, m, before, env, payer, proof, bound, creations);
  }

  lemma {:induction false} ExecutionOutcome(
    H: Hasher, m: Accounts, env: Env, payer: Key, proof: seq<Link>, bound: Pairs, creations: seq<nat>)
    requires Consistent(H, m) && Creatable(H, m, payer, proof, bound, creations)
    ensures ExecutesExactly(H, m, env, payer, proof, bound, creations)
    decreases |creations|
  {
    if creations != [] {
      var init := creations[..|creations| - 1];
      ExecutionOutcome(H, m, env, payer, proof, bound, init);
      if Execute(H, m, env, payer, proof, bound, init).Success? {
        LastExecutes(H, m, env, payer, proof, bound, creations);
      } else {
        ElementsSplit(creations);
        FundOneMore(H, m, env, payer, proof, Elements(init), creations[|creations| - 1]);
      }
    }
  }

  // ----- The whole instruction

  /** The proof is accepted with exactly the wanted records that are live taken as existing. */
  ghost predicate ProofHolds(H: Hasher, m: Accounts, proof: seq<Link>, remaining: seq<Meta>) {
    Accepted(H, proof, {0} + LiveWanted(H, m, proof, remaining))
  }

  /** What must hold before the first write: the anchor is live as entry 0, the proof holds, the
      accounts pair up, and every wanted record is live as stated or missing and writable. */
  ghost predicate Preflighted(
    H: Hasher, m: Accounts, payer: Key, anchor: Address, proof: seq<Link>, remaining: seq<Meta>)
  {
    && proof != [] && LiveAs(m, anchor, proof[0].record)
    && ProofHolds(H, m, proof, remaining)
    && (remaining == [] || PairsUp(H, payer, proof, remaining))
    && AllAllowed(H, m, payer, proof, remaining)
  }

  ghost predicate CanRestore(
    H: Hasher, m: Accounts, env: Env, payer: Key, anchor: Address, proof: seq<Link>, remaining: seq<Meta>)
  {
    && Preflighted(H, m, payer, anchor, proof, remaining)
    && CanFundAll(H, m, env, payer, proof, MissingWanted(H, m, proof, remaining))
  }

  /** Binding, parsing and the anchor: what comes before any pair is looked at. */
  ghost predicate Authenticated(
    H: Hasher, m: Accounts, payer: Key, anchor: Address, proof: seq<Link>, remaining: seq<Meta>)
  {
    && Parse(H, proof).Success? && LiveAs(m, anchor, proof[0].record)
    && (remaining == [] || PairsUp(H, payer, proof, remaining))
  }

  lemma ParsedIsDistinct(H: Hasher, proof: seq<Link>)
    requires Parse(H, proof).Success?
    ensures proof != [] && Distinct(ProofIds(H, proof))
  {
  }

  /** What is left of a restore once it is authenticated. */
  lemma RestoreAuthenticated(
    H: Hasher, m: Accounts, env: Env, payer: Key, anchor: Address, proof: seq<Link>, remaining: seq<Meta>)
    requires Consistent(H, m)
    ensures Authenticated(H, m, payer, anchor, proof, remaining) <==>
            && Bind(H, payer, proof, remaining).Success? && Parse(H, proof).Success?
            && ValidateAnchor(H, m, anchor, proof[0]).Pass?
    ensures Restore(H, m, env, payer, anchor, proof, remaining).Success? ==>
              Authenticated(H, m, payer, anchor, proof, remaining)
  {
    if proof != [] {
      AnchorOutcome(H, m, anchor, proof[0]);
    }
    if Parse(H, proof).Success? {
      BindOutcome(H, payer, proof, remaining);
    }
  }

  lemma PlannedAreMissing(H: Hasher, m: Accounts, payer: Key, proof: seq<Link>, remaining: seq<Meta>)
    requires Consistent(H, m) && proof != [] && ProofHolds(H, m, proof, remaining)
    requires Bind(H, payer, proof, remaining).Success? && AllAllowed(H, m, payer, proof, remaining)
    ensures Existing(H, m, payer, proof, Bind(H, payer, proof, remaining).value, |proof|).Success?
    ensures Creatable(H, m, payer, proof, Bind(H, payer, proof, remaining).value,
                      Created(H, m, payer, proof, remaining))
    ensures Elements(Created(H, m, payer, proof, remaining)) == MissingWanted(H, m, proof, remaining)
  {
    var bound := Bind(H, payer, proof, remaining).value;
    ParsedIsDistinct(H, proof);
    BindOutcome(H, payer, proof, remaining);
    ExistingOutcome(H, m, payer, proof, remaining);
    CreatedExactly(H, m, payer, proof, remaining);
    TimestampsSet(H, proof, {0} + LiveWanted(H, m, proof, remaining));
    forall i | i in bound
      ensures LiveMember(m, HashPda(proof[i].record.Id(H))) <==>
              At(m, HashPda(proof[i].record.Id(H))).owner == Program
    {
      assert Placed(H, m, HashPda(proof[i].record.Id(H)));
    }
  }

  /** The missing records stand again with one vote each, the payer's, who paid what their
      accounts still needed; nothing else changed. */
  ghost predicate Restored(
    H: Hasher, m: Accounts, after: Accounts, env: Env, payer: Key, proof: seq<Link>, missing: set<nat>)
    requires forall i | i in missing :: i < |proof|
  {
    var due := Due(H, m, env, payer, proof, missing);
    && (forall i | i in missing :: JustCreated(H, after, env, payer, proof[i].record))
    && (forall a | At(after, a) != At(m, a) :: a == Wallet(payer) || TouchedFor(H, payer, proof, missing, a))
    && Paid(m, after, payer, due)
  }

  ghost predicate TouchedFor(H: Hasher, payer: Key, proof: seq<Link>, missing: set<nat>, a: Address) {
    exists i :: i in missing && i < |proof| && IsAccountOf(H, payer, proof[i].record, a)
  }

  ghost predicate IsAccountOf(H: Hasher, payer: Key, r: Record, a: Address) {
    a == HashPda(r.Id(H)) || a == VotePda(payer, r.Id(H))
  }

  /** A preflighted restore executes its plan, and nothing else decides the outcome. */
  lemma PreflightedExecutes(
    H: Hasher, m: Accounts, env: Env, payer: Key, anchor: Address, proof: seq<Link>, remaining: seq<Meta>)
    requires Consistent(H, m) && Preflighted(H, m, payer, anchor, proof, remaining)
    ensures Restore(H, m, env, payer, anchor, proof, remaining).Success? <==>
            CanFundAll(H, m, env, payer, proof, MissingWanted(H, m, proof, remaining))
    ensures Restore(H, m, env, payer, anchor, proof, remaining).Success? ==>
              Restored(H, m, Restore(H, m, env, payer, anchor, proof, remaining).value, env, payer, proof,
                       MissingWanted(H, m, proof, remaining))
  {
    ParsedIsDistinct(H, proof);
    RestoreAuthenticated(H, m, env, payer, anchor, proof, remaining);
    ExistingOutcome(H, m, payer, proof, remaining);
    PlannedAreMissing(H, m, payer, proof, remaining);
    var bound, created := Bind(H, payer, proof, remaining).value, Created(H, m, payer, proof, remaining);
    ExecutionOutcome(H, m, env, payer, proof, bound, created);
    if Execute(H, m, env, payer, proof, bound, created).Success? {
      ExecutedIsRestored(H, m, env, payer, proof, bound, created);
    }
  }

  lemma ExecutedIsRestored(
    H: Hasher, m: Accounts, env: Env, payer: Key, proof: seq<Link>, bound: Pairs, creations: seq<nat>)
    requires Consistent(H, m) && Creatable(H, m, payer, proof, bound, creations)
    requires Execute(H, m, env, payer, proof, bound, creations).Success?
    ensures Restored(H, m, Execute(H, m, env, payer, proof, bound, creations).value, env, payer, proof,
                     Elements(creations))
  {
    var after := Execute(H, m, env, payer, proof, bound, creations).value;
    ExecutionOutcome(H, m, env, payer, proof, bound, creations);
    ExecutionChanges(H, m, env, payer, proof, bound, creations);
    forall i | i in Elements(creations)
      ensures JustCreated(H, after, env, payer, proof[i].record)
    {
      var k :| 0 <= k < |creations| && creations[k] == i;
      ExecutionCreates(H, m, env, payer, proof, bound, creations, k);
    }
    forall a | At(after, a) != At(m, a)
      ensures a == Wallet(payer) || TouchedFor(H, payer, proof, Elements(creations), a)
    {
      if !a.Wallet? {
        TouchedAreTheirs(H, payer, proof, creations, a.id);
        var k :| 0 <= k < |creations| && proof[creations[k]].record.Id(H) == a.id;
        assert IsAccountOf(H, payer, proof[creations[k]].record, a);
      } else {
        TouchedWallets(H, payer, proof, creations, a.key);
      }
    }
  }

  lemma {:induction false} TouchedWallets(H: Hasher, payer: Key, proof: seq<Link>, indices: seq<nat>, key: Key)
    requires forall k | 0 <= k < |indices| :: indices[k] < |proof|
    requires Wallet(key) in Touched(H, payer, proof, indices)
    ensures key == payer
    decreases |indices|
  {
    if indices != [] {
      TouchedWallets(H, payer, proof, indices[..|indices| - 1], key);
    }
  }

  /** A restore succeeds exactly when the anchor is live as the proof's first entry, the proof holds
      with the live wanted records existing, the accounts pair up, each wanted record is live as
      stated or missing with both its accounts writable, and the payer can fund the missing ones.
      Then exactly those are recreated. */
  lemma RestoreOutcome(
    H: Hasher, m: Accounts, env: Env, payer: Key, anchor: Address, proof: seq<Link>, remaining: seq<Meta>)
    requires Consistent(H, m)
    ensures Restore(H, m, env, payer, anchor, proof, remaining).Success? <==>
            CanRestore(H, m, env, payer, anchor, proof, remaining)
    ensures Restore(H, m, env, payer, anchor, proof, remaining).Success? ==>
              Restored(H, m, Restore(H, m, env, payer, anchor, proof, remaining).value, env, payer, proof,
                       MissingWanted(H, m, proof, remaining))
  {
    RestoreAuthenticated(H, m, env, payer, anchor, proof, remaining);
    if Restore(H, m, env, payer, anchor, proof, remaining).Success? {
      ParsedIsDistinct(H, proof);
      ExistingOutcome(H, m, payer, proof, remaining);
    }
    if Preflighted(H, m, payer, anchor, proof, remaining) {
      PreflightedExecutes(H, m, env, payer, anchor, proof, remaining);
    }
  }

  /** The first wanted entry that is not allowed decides the error; in particular a missing record
      with a read-only account is refused as ConstraintMut. */
  lemma RestoreRefusal(
    H: Hasher, m: Accounts, env: Env, payer: Key, anchor: Address, proof: seq<Link>, remaining: seq<Meta>, i: nat)
    requires Consistent(H, m) && Authenticated(H, m, payer, anchor, proof, remaining)
    requires i in Wanted(proof, remaining) && !EntryAllowed(H, m, payer, proof[i].record, remaining)
    requires forall k | k in Wanted(proof, remaining) && k < i :: EntryAllowed(H, m, payer, proof[k].record, remaining)
    ensures Restore(H, m, env, payer, anchor, proof, remaining) == Failure(EntryError(H, m, proof[i].record))
  {
    ParsedIsDistinct(H, proof);
    RestoreAuthenticated(H, m, env, payer, anchor, proof, remaining);
    BindOutcome(H, payer, proof, remaining);
    var bound := Bind(H, payer, proof, remaining).value;
    forall k | 1 <= k <= i && k in bound
      ensures ValidatePair(H, m, payer, proof[k], bound[k]).Success? <==> k < i
      ensures k == i ==> ValidatePair(H, m, payer, proof[k], bound[k]) == Failure(EntryError(H, m, proof[i].record))
    {
      BoundPairOutcome(H, m, payer, proof, remaining, k);
    }
    ExistingStops(H, m, payer, proof, bound, |proof|, i);
  }
}
