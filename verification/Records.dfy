/** Hash records, proof links and the exact byte strings their digests commit to. */
module Records {
  import opened Outcomes
  import opened Encoding

  datatype Source =
    | Raw
    | Account(account: Key)
    | Branch(previousHashId: Digest, payload: Digest, generation: u64)
    | Batch(members: seq<Digest>)
    | Pack
  {
    function Kind(): byte {
      match this
      case Raw => 0
      case Account(_) => 1
      case Branch(_, _, _) => 2
      case Batch(_) => 3
      case Pack => 4
    }

    function Generation(): u64 {
      if Branch? then generation else 0
    }

    /** Allocated account size: discriminator, fixed fields, encoded source and padding. */
    function Space(): nat {
      var base := 8 + 32 + 8 + 8 + 1;
      match this
      case Raw => base + 1 + 6
      case Account(_) => base + 1 + 32 + 6
      case Branch(_, _, _) => base + 1 + 32 + 32 + 8 + 6
      case Batch(ms) => base + 1 + 4 + |ms| * 32 + 2
      case Pack => base + 1 + 6
    }
  }

  /** What an aggregate commits to about one member. */
  datatype Stamp = Stamp(hash: Digest, kind: byte, createdAt: i64)

  /** What a proof states about one dependency. */
  datatype Fingerprint = Fingerprint(hash: Digest, kind: byte, createdAt: i64, generation: u64) {
    function Id(H: Hasher): Digest {
      H(IdPreimage(hash, kind))
    }

    function AsStamp(): Stamp {
      Stamp(hash, kind, createdAt)
    }
  }

  /** One historical incarnation of a record. */
  datatype Record = Record(hash: Digest, source: Source, createdAt: i64) {
    function Id(H: Hasher): Digest {
      H(IdPreimage(hash, source.Kind()))
    }

    function AsStamp(): Stamp {
      Stamp(hash, source.Kind(), createdAt)
    }

    function AsFingerprint(): Fingerprint {
      Fingerprint(hash, source.Kind(), createdAt, source.Generation())
    }
  }

  datatype Snapshot = Snapshot(owner: Key, lamports: u64, executable: bool, rentEpoch: u64, data: Bytes)

  datatype Params =
    | RawParams(payload: Bytes)
    | AccountParams(snapshot: Option<Snapshot>)
    | BranchParams(parent: Fingerprint)
    | BatchParams(members: seq<Fingerprint>)
    | PackParams(members: seq<Fingerprint>)

  datatype Link = Link(record: Record, params: Option<Params>)

  // ----- Preimages

  function IdPreimage(hash: Digest, kind: byte): Bytes {
    hash + [kind]
  }

  function BranchPreimage(previousHashId: Digest, kind: byte, createdAt: i64, generation: u64, payload: Digest): Bytes {
    previousHashId + [kind] + I64Bytes(createdAt) + U64Bytes(generation) + payload
  }

  function MetadataPreimage(key: Key, snapshot: Snapshot): Bytes {
    key + snapshot.owner + U64Bytes(snapshot.lamports) + [if snapshot.executable then 1 else 0]
    + U64Bytes(snapshot.rentEpoch) + snapshot.data
  }

  function StampBytes(s: Stamp): (r: Bytes)
    ensures |r| == 41
  {
    s.hash + [s.kind] + I64Bytes(s.createdAt)
  }

  function AggregatePreimage(stamps: seq<Stamp>): (r: Bytes)
    ensures |r| == 41 * |stamps|
  {
    if stamps == [] then []
    else AggregatePreimage(stamps[..|stamps| - 1]) + StampBytes(stamps[|stamps| - 1])
  }

  function Stamps(fingerprints: seq<Fingerprint>): (r: seq<Stamp>)
    ensures |r| == |fingerprints|
    ensures forall i | 0 <= i < |r| :: r[i] == fingerprints[i].AsStamp()
  {
    seq(|fingerprints|, i requires 0 <= i < |fingerprints| => fingerprints[i].AsStamp())
  }

  function StampsOf(records: seq<Record>): (r: seq<Stamp>)
    ensures |r| == |records|
    ensures forall i | 0 <= i < |r| :: r[i] == records[i].AsStamp()
  {
    seq(|records|, i requires 0 <= i < |records| => records[i].AsStamp())
  }

  function Ids(H: Hasher, fingerprints: seq<Fingerprint>): (r: seq<Digest>)
    ensures |r| == |fingerprints|
    ensures forall i | 0 <= i < |r| :: r[i] == fingerprints[i].Id(H)
  {
    seq(|fingerprints|, i requires 0 <= i < |fingerprints| => fingerprints[i].Id(H))
  }

  function IdsOf(H: Hasher, records: seq<Record>): (r: seq<Digest>)
    ensures |r| == |records| && forall i | 0 <= i < |r| :: r[i] == records[i].Id(H)
  {
    seq(|records|, i requires 0 <= i < |records| => records[i].Id(H))
  }

  /** What a link states about its dependencies. */
  function FingerprintsIn(link: Link): seq<Fingerprint> {
    match link.params
    case Some(BranchParams(parent)) => [parent]
    case Some(BatchParams(metas)) => metas
    case Some(PackParams(metas)) => metas
    case _ => []
  }

  // ----- The framing is injective

  lemma IdPreimageInjective(h1: Digest, k1: byte, h2: Digest, k2: byte)
    requires IdPreimage(h1, k1) == IdPreimage(h2, k2)
    ensures h1 == h2 && k1 == k2
  {
    var x, y := IdPreimage(h1, k1), IdPreimage(h2, k2);
    assert x[..32] == h1 && y[..32] == h2;
    assert x[32] == k1 && y[32] == k2;
  }

  lemma BranchPreimageInjective(
    p1: Digest, k1: byte, t1: i64, g1: u64, b1: Digest, p2: Digest, k2: byte, t2: i64, g2: u64, b2: Digest)
    requires BranchPreimage(p1, k1, t1, g1, b1) == BranchPreimage(p2, k2, t2, g2, b2)
    ensures p1 == p2 && k1 == k2 && t1 == t2 && g1 == g2 && b1 == b2
  {
    var x, y := BranchPreimage(p1, k1, t1, g1, b1), BranchPreimage(p2, k2, t2, g2, b2);
    assert x[..32] == p1 && y[..32] == p2;
    assert x[32] == k1 && y[32] == k2;
    assert x[33..41] == I64Bytes(t1) && y[33..41] == I64Bytes(t2);
    assert x[41..49] == U64Bytes(g1) && y[41..49] == U64Bytes(g2);
    assert x[49..] == b1 && y[49..] == b2;
    I64BytesInjective(t1, t2);
    U64BytesInjective(g1, g2);
  }

  lemma MetadataKeyBound(k1: Key, s1: Snapshot, k2: Key, s2: Snapshot)
    requires MetadataPreimage(k1, s1) == MetadataPreimage(k2, s2)
    ensures k1 == k2 && s1 == s2
  {
    var x, y := MetadataPreimage(k1, s1), MetadataPreimage(k2, s2);
    assert x[..32] == k1 && y[..32] == k2;
    assert x[32..64] == s1.owner && y[32..64] == s2.owner;
    assert x[64..72] == U64Bytes(s1.lamports) && y[64..72] == U64Bytes(s2.lamports);
    assert x[72] == (if s1.executable then 1 else 0) && y[72] == (if s2.executable then 1 else 0);
    assert x[73..81] == U64Bytes(s1.rentEpoch) && y[73..81] == U64Bytes(s2.rentEpoch);
    assert x[81..] == s1.data && y[81..] == s2.data;
    U64BytesInjective(s1.lamports, s2.lamports);
    U64BytesInjective(s1.rentEpoch, s2.rentEpoch);
  }

  lemma StampBytesInjective(a: Stamp, b: Stamp)
    requires StampBytes(a) == StampBytes(b)
    ensures a == b
  {
    var x, y := StampBytes(a), StampBytes(b);
    assert x[..32] == a.hash && y[..32] == b.hash;
    assert x[32] == a.kind && y[32] == b.kind;
    assert x[33..] == I64Bytes(a.createdAt) && y[33..] == I64Bytes(b.createdAt);
    I64BytesInjective(a.createdAt, b.createdAt);
  }

  /** The member list can be read back from an aggregate preimage, in order. */
  lemma {:induction false} AggregatePreimageInjective(a: seq<Stamp>, b: seq<Stamp>)
    requires AggregatePreimage(a) == AggregatePreimage(b)
    ensures a == b
    decreases |a|
  {
    assert |a| == |b|;
    if |a| > 0 {
      var n := |a| - 1;
      var x, y := AggregatePreimage(a), AggregatePreimage(b);
      assert x[..41 * n] == AggregatePreimage(a[..n]) && y[..41 * n] == AggregatePreimage(b[..n]);
      assert x[41 * n..] == StampBytes(a[n]) && y[41 * n..] == StampBytes(b[n]);
      AggregatePreimageInjective(a[..n], b[..n]);
      StampBytesInjective(a[n], b[n]);
      assert a == a[..n] + [a[n]] && b == b[..n] + [b[n]];
    }
  }
}
