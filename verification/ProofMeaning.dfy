/** What an accepted proof says: every link's commitment holds among the proof's own entries. */
module ProofMeaning {
  import opened Outcomes
  import opened Encoding
  import opened Records
  import opened ProofGraph
  import opened ProofShape
  import opened Commitments

  /** Some entry of the proof has exactly this fingerprint. */
  ghost predicate Describes(proof: seq<Link>, f: Fingerprint) {
    exists j :: 0 <= j < |proof| && proof[j].record.AsFingerprint() == f
  }

  ghost predicate Committed(H: Hasher, proof: seq<Link>, link: Link, accountExists: bool) {
    var Record(hash, source, createdAt) := link.record;
    createdAt != 0 &&
    match (source, link.params)
    case (Raw, None) => true
    case (Raw, Some(RawParams(payload))) => payload != [] && (H(payload) == hash || payload == hash)
    case (Account(key), Some(AccountParams(snapshot))) =>
      if snapshot.Some? then H(MetadataPreimage(key, snapshot.value)) == hash else accountExists
    case (Branch(previous, payload, generation), Some(BranchParams(parent))) =>
      && parent.Id(H) == previous
      && Describes(proof, parent)
      && generation == parent.generation + 1
      && H(BranchPreimage(previous, parent.kind, parent.createdAt, parent.generation, payload)) == hash
    case (Batch(members), Some(BatchParams(metas))) =>
      && metas != [] && Ids(H, metas) == members
      && (forall m | m in metas :: Describes(proof, m))
      && H(AggregatePreimage(Stamps(metas))) == hash
    case (Pack, Some(PackParams(metas))) =>
      && metas != [] && Distinct(Ids(H, metas))
      && (forall m | m in metas :: Describes(proof, m))
      && H(AggregatePreimage(Stamps(metas))) == hash
    case _ => false
  }

  /** `validated` holds this proof's own entries under their identities. */
  ghost predicate HoldsEntries(H: Hasher, proof: seq<Link>, validated: Validated) {
    forall id | id in validated ::
      exists j :: 0 <= j < |proof| && proof[j].record == validated[id] && proof[j].record.Id(H) == id
  }

  ghost predicate Covers(H: Hasher, link: Link, validated: Validated) {
    && LinkDependencies(H, link).Success?
    && forall d | d in LinkDependencies(H, link).value :: d in validated
  }

  lemma FingerprintIds(H: Hasher, proof: seq<Link>, validated: Validated, f: Fingerprint)
    requires Distinct(ProofIds(H, proof)) && HoldsEntries(H, proof, validated)
    requires f.Id(H) in validated
    ensures f == validated[f.Id(H)].AsFingerprint() <==> Describes(proof, f)
  {
    var ids := ProofIds(H, proof);
    var j :| 0 <= j < |proof| && proof[j].record == validated[f.Id(H)] && proof[j].record.Id(H) == f.Id(H);
    if i :| 0 <= i < |proof| && proof[i].record.AsFingerprint() == f {
      assert ids[i] == ids[j];
      assert i == j;
    }
  }

  lemma MembersDescribed(H: Hasher, proof: seq<Link>, validated: Validated, metas: seq<Fingerprint>)
    requires Distinct(ProofIds(H, proof)) && HoldsEntries(H, proof, validated)
    requires forall i | 0 <= i < |metas| :: metas[i].Id(H) in validated
    ensures (forall i | 0 <= i < |metas| :: CheckMember(metas[i].Id(H), metas[i], validated).Pass?)
         <==> (forall m | m in metas :: Describes(proof, m))
  {
    forall i | 0 <= i < |metas|
      ensures CheckMember(metas[i].Id(H), metas[i], validated).Pass? <==> Describes(proof, metas[i])
    {
      FingerprintIds(H, proof, validated, metas[i]);
    }
  }

  lemma BatchIff(H: Hasher, proof: seq<Link>, link: Link, validated: Validated, accountExists: bool)
    requires Distinct(ProofIds(H, proof)) && HoldsEntries(H, proof, validated) && Covers(H, link, validated)
    requires link.record.source.Batch? && link.record.createdAt != 0
    ensures CheckBatch(H, link.record, validated, link.params.value.members).Pass?
         <==> Committed(H, proof, link, accountExists)
  {
    var members, metas := link.record.source.members, link.params.value.members;
    if |members| == |metas| {
      var checks := BatchMemberChecks(H, members, metas, validated);
      if Ids(H, metas) == members {
        forall i | 0 <= i < |metas|
          ensures metas[i].Id(H) in validated
          ensures checks[i] == CheckMember(metas[i].Id(H), metas[i], validated)
        {
          assert members[i] in members;
        }
        MembersDescribed(H, proof, validated, metas);
      } else {
        var i :| 0 <= i < |metas| && metas[i].Id(H) != members[i];
        assert checks[i].Fail?;
      }
    }
  }

  lemma PackIff(H: Hasher, proof: seq<Link>, link: Link, validated: Validated, accountExists: bool)
    requires Distinct(ProofIds(H, proof)) && HoldsEntries(H, proof, validated) && Covers(H, link, validated)
    requires link.record.source.Pack? && link.record.createdAt != 0
    ensures CheckPack(H, link.record, validated, link.params.value.members).Pass?
         <==> Committed(H, proof, link, accountExists)
  {
    var metas := link.params.value.members;
    forall i | 0 <= i < |metas|
      ensures metas[i].Id(H) in validated
    {
      assert Ids(H, metas)[i] in Ids(H, metas);
    }
    MembersDescribed(H, proof, validated, metas);
    PackChecks(H, metas, validated);
  }

  lemma PackChecks(H: Hasher, metas: seq<Fingerprint>, validated: Validated)
    ensures FirstFailure(PackMemberChecks(H, metas, validated)).Pass?
         <==> && Distinct(Ids(H, metas))
              && forall i | 0 <= i < |metas| :: CheckMember(metas[i].Id(H), metas[i], validated).Pass?
  {
    var ids, checks := Ids(H, metas), PackMemberChecks(H, metas, validated);
    forall i | 0 <= i < |metas|
      ensures Ids(H, metas[..i]) == ids[..i]
    {
    }
    if Distinct(ids) {
      forall i | 0 <= i < |metas|
        ensures checks[i] == CheckMember(metas[i].Id(H), metas[i], validated)
      {
        assert Ids(H, metas[..i]) == ids[..i];
      }
    } else {
      var j, i :| 0 <= j < i < |ids| && ids[j] == ids[i];
      assert ids[..i][j] == metas[i].Id(H);
      assert checks[i].Fail?;
    }
  }

  lemma EntryIff(H: Hasher, proof: seq<Link>, link: Link, validated: Validated, accountExists: bool, isTip: bool)
    requires Distinct(ProofIds(H, proof)) && HoldsEntries(H, proof, validated) && Covers(H, link, validated)
    ensures CheckEntry(H, link, validated, accountExists, isTip).Pass? <==> Committed(H, proof, link, accountExists)
  {
    if link.record.createdAt == 0 {
      return;
    }
    match link.record.source
    case Batch(_) => BatchIff(H, proof, link, validated, accountExists);
    case Pack => PackIff(H, proof, link, validated, accountExists);
    case Branch(previous, _, _) =>
      var parent := link.params.value.parent;
      if parent.Id(H) == previous {
        FingerprintIds(H, proof, validated, parent);
      }
    case _ =>
  }

  lemma {:induction false} ValidatedHoldsEntries(H: Hasher, proof: seq<Link>, order: seq<nat>)
    requires forall k | 0 <= k < |order| :: order[k] < |proof|
    ensures HoldsEntries(H, proof, ValidatedBy(H, proof, order))
    ensures forall k | 0 <= k < |order| :: proof[order[k]].record.Id(H) in ValidatedBy(H, proof, order)
  {
    if order != [] {
      ValidatedHoldsEntries(H, proof, order[..|order| - 1]);
    }
  }

  lemma EarlierAreValidated(H: Hasher, proof: seq<Link>, order: seq<nat>, n: nat)
    requires Distinct(ProofIds(H, proof)) && DependencyFirstOrder(H, proof, order) && n < |order|
    ensures LinkDependencies(H, proof[order[n]]).Success?
    ensures forall d | d in LinkDependencies(H, proof[order[n]]).value :: d in ValidatedBy(H, proof, order[..n])
  {
    ValidatedHoldsEntries(H, proof, order[..n]);
    forall d | d in LinkDependencies(H, proof[order[n]]).value
      ensures d in ValidatedBy(H, proof, order[..n])
    {
      var j :| 0 <= j < n && proof[order[j]].record.Id(H) == d;
      assert order[..n][j] == order[j];
    }
  }

  /** One more entry passes exactly when its own commitment holds. */
  lemma CheckedOnce(H: Hasher, proof: seq<Link>, order: seq<nat>, existing: set<nat>, n: nat)
    requires Distinct(ProofIds(H, proof)) && DependencyFirstOrder(H, proof, order) && n < |order|
    ensures CheckGraph(H, proof, order[..n + 1], existing).Pass?
         <==> && CheckGraph(H, proof, order[..n], existing).Pass?
              && Committed(H, proof, proof[order[n]], order[n] in existing)
  {
    assert order[..n + 1][..n] == order[..n];
    ValidatedHoldsEntries(H, proof, order[..n]);
    EarlierAreValidated(H, proof, order, n);
    EntryIff(H, proof, proof[order[n]], ValidatedBy(H, proof, order[..n]), order[n] in existing, order[n] == 0);
  }

  ghost predicate CommittedUpTo(H: Hasher, proof: seq<Link>, order: seq<nat>, existing: set<nat>, n: nat)
    requires n <= |order| && forall k | 0 <= k < |order| :: order[k] < |proof|
  {
    n > 0 ==>
      && CommittedUpTo(H, proof, order, existing, n - 1)
      && Committed(H, proof, proof[order[n - 1]], order[n - 1] in existing)
  }

  lemma {:induction false} CommittedUpToEach(
    H: Hasher, proof: seq<Link>, order: seq<nat>, existing: set<nat>, n: nat)
    requires n <= |order| && forall k | 0 <= k < |order| :: order[k] < |proof|
    ensures CommittedUpTo(H, proof, order, existing, n)
         <==> forall k | 0 <= k < n :: Committed(H, proof, proof[order[k]], order[k] in existing)
  {
    if n > 0 {
      CommittedUpToEach(H, proof, order, existing, n - 1);
    }
  }

  /** Along a dependency-first order, all checks pass exactly when all commitments hold. */
  lemma {:induction false} CheckedUpTo(H: Hasher, proof: seq<Link>, order: seq<nat>, existing: set<nat>, n: nat)
    requires Distinct(ProofIds(H, proof)) && DependencyFirstOrder(H, proof, order) && n <= |order|
    ensures CheckGraph(H, proof, order[..n], existing).Pass? <==> CommittedUpTo(H, proof, order, existing, n)
    decreases n
  {
    if n > 0 {
      CheckedUpTo(H, proof, order, existing, n - 1);
      CheckedOnce(H, proof, order, existing, n - 1);
    }
  }

  /** A parsed proof validates exactly when every link's commitment holds among its entries. */
  lemma ValidatedExactlyWhenCommitted(H: Hasher, proof: seq<Link>, existing: set<nat>)
    requires Parse(H, proof).Success?
    ensures CheckGraph(H, proof, Parse(H, proof).value, existing).Pass?
         <==> forall i | 0 <= i < |proof| :: Committed(H, proof, proof[i], i in existing)
  {
    var order := Parse(H, proof).value;
    ParsedOrder(H, proof);
    CheckedUpTo(H, proof, order, existing, |order|);
    CommittedUpToEach(H, proof, order, existing, |order|);
    assert order[..|order|] == order;
    if forall k | 0 <= k < |order| :: Committed(H, proof, proof[order[k]], order[k] in existing) {
      forall i | 0 <= i < |proof|
        ensures Committed(H, proof, proof[i], i in existing)
      {
        assert i in order;
      }
    }
  }
}
