/** The SDK's digests, fed to a hasher piece by piece: each is the digest of the same byte
    string the program hashes in one go. */
module SdkHashes {
  import opened Outcomes
  import opened Encoding
  import opened Records

  class IncrementalHasher {
    var absorbed: Bytes

    constructor ()
      ensures absorbed == []
    {
      absorbed := [];
    }

    method Update(piece: Bytes)
      modifies this
      ensures absorbed == old(absorbed) + piece
    {
      absorbed := absorbed + piece;
    }

    function Finish(H: Hasher): (digest: Digest)
      reads this
    {
      H(absorbed)
    }
  }

  method CanonicalHashId(H: Hasher, hash: Digest, kind: byte) returns (id: Digest)
    ensures id == H(IdPreimage(hash, kind))
  {
    var hasher := new IncrementalHasher();
    hasher.Update(hash);
    hasher.Update([kind]);
    assert hasher.absorbed == IdPreimage(hash, kind);
    id := hasher.Finish(H);
  }

  method DeriveAccountSnapshotHash(H: Hasher, account: Key, snapshot: Snapshot) returns (digest: Digest)
    ensures digest == H(MetadataPreimage(account, snapshot))
  {
    var hasher := new IncrementalHasher();
    hasher.Update(account);
    hasher.Update(snapshot.owner);
    hasher.Update(U64Bytes(snapshot.lamports));
    hasher.Update([if snapshot.executable then 1 else 0]);
    hasher.Update(U64Bytes(snapshot.rentEpoch));
    hasher.Update(snapshot.data);
    assert hasher.absorbed == MetadataPreimage(account, snapshot);
    digest := hasher.Finish(H);
  }

  method DeriveBranchHash(
    H: Hasher, previousId: Digest, previousCreatedAt: i64, previousGeneration: u64, previousKind: byte, payload: Digest)
    returns (digest: Digest)
    ensures digest == H(BranchPreimage(previousId, previousKind, previousCreatedAt, previousGeneration, payload))
  {
    var hasher := new IncrementalHasher();
    hasher.Update(previousId);
    hasher.Update([previousKind]);
    hasher.Update(I64Bytes(previousCreatedAt));
    hasher.Update(U64Bytes(previousGeneration));
    hasher.Update(payload);
    assert hasher.absorbed == BranchPreimage(previousId, previousKind, previousCreatedAt, previousGeneration, payload);
    digest := hasher.Finish(H);
  }

  /** Batch and pack digests; an empty member list is refused. */
  method DeriveAggregateHash(H: Hasher, members: seq<Stamp>) returns (digest: Option<Digest>)
    ensures digest == if members == [] then None else Some(H(AggregatePreimage(members)))
  {
    if |members| == 0 {
      return None;
    }
    var hasher := new IncrementalHasher();
    assert members[..0] == [];
    for i := 0 to |members|
      invariant fresh(hasher) && hasher.absorbed == AggregatePreimage(members[..i])
    {
      assert members[..i + 1][..i] == members[..i];
      hasher.Update(members[i].hash);
      hasher.Update([members[i].kind]);
      hasher.Update(I64Bytes(members[i].createdAt));
      assert hasher.absorbed == AggregatePreimage(members[..i]) + StampBytes(members[i]);
    }
    assert members[..|members|] == members;
    digest := Some(hasher.Finish(H));
  }
}
