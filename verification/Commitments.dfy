/** Checking every commitment of a parsed proof, in dependency-first order. */
module Commitments {
  import opened Outcomes
  import opened Encoding
  import opened Records
  import opened Errors

  /** Records already validated in this pass, by canonical identity. */
  type Validated = map<Digest, Record>

  function FirstFailure(checks: seq<Check<Error>>): (r: Check<Error>)
    ensures r.Pass? <==> forall i | 0 <= i < |checks| :: checks[i].Pass?
  {
    if checks == [] then Pass
    else
      var init := FirstFailure(checks[..|checks| - 1]);
      if init.Fail? then init else checks[|checks| - 1]
  }

  // ----- One link

  function CheckRaw(H: Hasher, hash: Digest, payload: Bytes): Check<Error> {
    if payload == [] then Fail(RestoreHashPayloadMissing)
    else if H(payload) == hash || payload == hash then Pass
    else Fail(RestoreProofMismatch)
  }

  function CheckAccount(
    H: Hasher, snapshot: Option<Snapshot>, accountExists: bool, key: Key, hash: Digest): Check<Error>
  {
    match snapshot
    case Some(s) => if H(MetadataPreimage(key, s)) == hash then Pass else Fail(RestoreProofMismatch)
    case None => if accountExists then Pass else Fail(RestoreAccountSnapshotMissing)
  }

  function CheckBranch(H: Hasher, record: Record, validated: Validated, isTip: bool, parent: Fingerprint): Check<Error>
    requires record.source.Branch?
  {
    var Branch(previous, payload, generation) := record.source;
    if parent.Id(H) != previous then Fail(RestoreProofMismatch)
    else if previous !in validated then Fail(RestoreDependencyMissing)
    else if parent != validated[previous].AsFingerprint() then
      Fail(if isTip then RestoreTipMismatch else RestoreProofMismatch)
    else if parent.generation + 1 >= U64_LIMIT then Fail(GenerationOverflow)
    else if generation != parent.generation + 1 then
      Fail(if isTip then RestoreTipMismatch else RestoreGenerationMismatch)
    else if H(BranchPreimage(previous, parent.kind, parent.createdAt, parent.generation, payload)) != record.hash then
      Fail(if isTip then RestoreTipMismatch else RestoreProofMismatch)
    else Pass
  }

  function CheckMember(id: Digest, meta: Fingerprint, validated: Validated): Check<Error> {
    if id !in validated then Fail(RestoreDependencyMissing)
    else if meta != validated[id].AsFingerprint() then Fail(RestoreProofMismatch)
    else Pass
  }

  function BatchMemberChecks(H: Hasher, members: seq<Digest>, metas: seq<Fingerprint>, validated: Validated)
    : (r: seq<Check<Error>>)
    requires |members| == |metas|
  {
    seq(|metas|, i requires 0 <= i < |metas| =>
      if metas[i].Id(H) != members[i] then Fail(RestoreProofMismatch) else CheckMember(members[i], metas[i], validated))
  }

  function PackMemberChecks(H: Hasher, metas: seq<Fingerprint>, validated: Validated): (r: seq<Check<Error>>) {
    seq(|metas|, i requires 0 <= i < |metas| =>
      if metas[i].Id(H) in Ids(H, metas[..i]) then Fail(RestoreProofMismatch)
      else CheckMember(metas[i].Id(H), metas[i], validated))
  }

  function CheckBatch(H: Hasher, record: Record, validated: Validated, metas: seq<Fingerprint>): Check<Error>
    requires record.source.Batch?
  {
    var members := record.source.members;
    if members == [] || metas == [] then Fail(BatchMembersEmpty)
    else if |members| != |metas| then Fail(RestoreProofMismatch)
    else
      var each := FirstFailure(BatchMemberChecks(H, members, metas, validated));
      if each.Fail? then each
      else if H(AggregatePreimage(Stamps(metas))) != record.hash then Fail(RestoreProofMismatch)
      else Pass
  }

  function CheckPack(H: Hasher, record: Record, validated: Validated, metas: seq<Fingerprint>): Check<Error> {
    if metas == [] then Fail(RestorePackMembersMissing)
    else
      var each := FirstFailure(PackMemberChecks(H, metas, validated));
      if each.Fail? then each
      else if H(AggregatePreimage(Stamps(metas))) != record.hash then Fail(RestoreProofMismatch)
      else Pass
  }

  function CheckLink(H: Hasher, link: Link, validated: Validated, accountExists: bool, isTip: bool): Check<Error> {
    match (link.record.source, link.params)
    case (Raw, None) => Pass
    case (Raw, Some(RawParams(payload))) => CheckRaw(H, link.record.hash, payload)
    case (Account(key), Some(AccountParams(snapshot))) => CheckAccount(H, snapshot, accountExists, key,
                                                                       link.record.hash)
    case (Branch(_, _, _), Some(BranchParams(parent))) => CheckBranch(H, link.record, validated, isTip, parent)
    case (Batch(_), Some(BatchParams(metas))) => CheckBatch(H, link.record, validated, metas)
    case (Pack, Some(PackParams(metas))) => CheckPack(H, link.record, validated, metas)
    case _ => Fail(RestoreProofMismatch)
  }

  // ----- The whole graph

  function ValidatedBy(H: Hasher, proof: seq<Link>, order: seq<nat>): Validated
    requires forall k | 0 <= k < |order| :: order[k] < |proof|
  {
    if order == [] then map[]
    else
      var n := |order| - 1;
      ValidatedBy(H, proof, order[..n])[proof[order[n]].record.Id(H) := proof[order[n]].record]
  }

  function CheckEntry(H: Hasher, link: Link, validated: Validated, accountExists: bool, isTip: bool): Check<Error> {
    if link.record.createdAt == 0 then Fail(RestoreTimestampMismatch)
    else CheckLink(H, link, validated, accountExists, isTip)
  }

  function CheckGraph(H: Hasher, proof: seq<Link>, order: seq<nat>, existing: set<nat>): Check<Error>
    requires forall k | 0 <= k < |order| :: order[k] < |proof|
  {
    if order == [] then Pass
    else
      var n := |order| - 1;
      var before := CheckGraph(H, proof, order[..n], existing);
      if before.Fail? then before
      else CheckEntry(H, proof[order[n]], ValidatedBy(H, proof, order[..n]), order[n] in existing, order[n] == 0)
  }

  // ----- The checks as the program runs them

  method FingerprintDigest(H: Hasher, stamps: seq<Stamp>, emptyError: Error) returns (r: Result<Digest, Error>)
    ensures r == if stamps == [] then Failure(emptyError) else Success(H(AggregatePreimage(stamps)))
  {
    if |stamps| == 0 {
      return Failure(emptyError);
    }
    var preimage: Bytes := [];
    for i := 0 to |stamps|
      invariant preimage == AggregatePreimage(stamps[..i])
    {
      assert stamps[..i + 1][..i] == stamps[..i];
      preimage := preimage + stamps[i].hash + [stamps[i].kind] + I64Bytes(stamps[i].createdAt);
      assert preimage == AggregatePreimage(stamps[..i]) + StampBytes(stamps[i]);
    }
    assert stamps[..|stamps|] == stamps;
    r := Success(H(preimage));
  }

  lemma FailureAt(checks: seq<Check<Error>>, i: nat)
    requires i < |checks| && checks[i].Fail? && forall j | 0 <= j < i :: checks[j].Pass?
    ensures FirstFailure(checks) == checks[i]
  {
    if i < |checks| - 1 {
      FailureAt(checks[..|checks| - 1], i);
    }
  }

  method ValidateBatchLink(H: Hasher, record: Record, validated: Validated, metas: seq<Fingerprint>)
    returns (r: Check<Error>)
    requires record.source.Batch?
    ensures r == CheckBatch(H, record, validated, metas)
  {
    var members := record.source.members;
    if |members| == 0 || |metas| == 0 {
      return Fail(BatchMembersEmpty);
    }
    if |members| != |metas| {
      return Fail(RestoreProofMismatch);
    }
    ghost var checks := BatchMemberChecks(H, members, metas, validated);
    var stamps: seq<Stamp>, canonicalIds: seq<Digest> := [], [];
    for i := 0 to |members|
      invariant forall j | 0 <= j < i :: checks[j].Pass?
      invariant stamps == Stamps(metas)[..i] && canonicalIds == members[..i]
    {
      var meta := metas[i];
      if meta.Id(H) != members[i] {
        FailureAt(checks, i);
        return Fail(RestoreProofMismatch);
      }
      if members[i] !in validated {
        FailureAt(checks, i);
        return Fail(RestoreDependencyMissing);
      }
      if meta != validated[members[i]].AsFingerprint() {
        FailureAt(checks, i);
        return Fail(RestoreProofMismatch);
      }
      stamps := stamps + [meta.AsStamp()];
      canonicalIds := canonicalIds + [members[i]];
    }
    assert stamps == Stamps(metas);
    var digest := FingerprintDigest(H, stamps, BatchMembersEmpty);
    r := Require(digest.value == record.hash && Batch(canonicalIds) == record.source, RestoreProofMismatch);
  }

  lemma SeenOneMore(H: Hasher, metas: seq<Fingerprint>, i: nat)
    requires i < |metas|
    ensures Elements(Ids(H, metas[..i + 1])) == Elements(Ids(H, metas[..i])) + {metas[i].Id(H)}
  {
    assert Ids(H, metas[..i + 1]) == Ids(H, metas[..i]) + [metas[i].Id(H)];
  }

  method ValidatePackLink(H: Hasher, record: Record, validated: Validated, metas: seq<Fingerprint>)
    returns (r: Check<Error>)
    ensures r == CheckPack(H, record, validated, metas)
  {
    if |metas| == 0 {
      return Fail(RestorePackMembersMissing);
    }
    ghost var checks := PackMemberChecks(H, metas, validated);
    var stamps: seq<Stamp>, seen: set<Digest> := [], {};
    for i := 0 to |metas|
      invariant forall j | 0 <= j < i :: checks[j].Pass?
      invariant seen == Elements(Ids(H, metas[..i]))
      invariant stamps == Stamps(metas)[..i]
    {
      var canonical := metas[i].Id(H);
      if canonical in seen {
        FailureAt(checks, i);
        return Fail(RestoreProofMismatch);
      }
      seen := seen + {canonical};
      SeenOneMore(H, metas, i);
      if canonical !in validated {
        FailureAt(checks, i);
        return Fail(RestoreDependencyMissing);
      }
      if metas[i] != validated[canonical].AsFingerprint() {
        FailureAt(checks, i);
        return Fail(RestoreProofMismatch);
      }
      stamps := stamps + [metas[i].AsStamp()];
    }
    assert stamps == Stamps(metas);
    var digest := FingerprintDigest(H, stamps, PackMembersEmpty);
    r := Require(digest.value == record.hash, RestoreProofMismatch);
  }

  method ValidateVariant(H: Hasher, link: Link, validated: Validated, accountExists: bool, isTip: bool)
    returns (r: Check<Error>)
    ensures r == CheckLink(H, link, validated, accountExists, isTip)
  {
    match (link.record.source, link.params) {
      case (Batch(_), Some(BatchParams(metas))) => r := ValidateBatchLink(H, link.record, validated, metas);
      case (Pack, Some(PackParams(metas))) => r := ValidatePackLink(H, link.record, validated, metas);
      case _ => r := CheckLink(H, link, validated, accountExists, isTip);
    }
  }

  method ValidateGraph(H: Hasher, proof: seq<Link>, order: seq<nat>, existing: set<nat>) returns (r: Check<Error>)
    requires forall k | 0 <= k < |order| :: order[k] < |proof|
    ensures r == CheckGraph(H, proof, order, existing)
  {
    var validated: Validated := map[];
    for k := 0 to |order|
      invariant validated == ValidatedBy(H, proof, order[..k])
      invariant CheckGraph(H, proof, order[..k], existing) == Pass
    {
      assert order[..k + 1][..k] == order[..k];
      var index := order[k];
      var link := proof[index];
      if link.record.createdAt == 0 {
        CheckGraphFails(H, proof, order, existing, k);
        return Fail(RestoreTimestampMismatch);
      }
      r := ValidateVariant(H, link, validated, index in existing, index == 0);
      if r.Fail? {
        CheckGraphFails(H, proof, order, existing, k);
        return;
      }
      validated := validated[link.record.Id(H) := link.record];
    }
    assert order[..|order|] == order;
    r := Pass;
  }

  lemma {:induction false} CheckGraphFails(H: Hasher, proof: seq<Link>, order: seq<nat>, existing: set<nat>, k: nat)
    requires forall j | 0 <= j < |order| :: order[j] < |proof|
    requires k < |order| && CheckGraph(H, proof, order[..k], existing) == Pass
    requires CheckEntry(H, proof[order[k]], ValidatedBy(H, proof, order[..k]), order[k] in existing,
                        order[k] == 0).Fail?
    ensures CheckGraph(H, proof, order, existing)
         == CheckEntry(H, proof[order[k]], ValidatedBy(H, proof, order[..k]), order[k] in existing, order[k] == 0)
    decreases |order|
  {
    var n := |order| - 1;
    assert order[..n][..k] == order[..k];
    if k < n {
      CheckGraphFails(H, proof, order[..n], existing, k);
    }
  }
}
