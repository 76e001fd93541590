/** Commitments tie a record to the exact history it was built from.  The only assumption is
    that no two of the finitely many strings actually hashed share a digest. */
module Justification {
  import opened Encoding
  import opened Records

  type History = set<Record>

  ghost predicate Aggregates(H: Hasher, history: History, hashed: set<Bytes>, r: Record, members: seq<Record>) {
    && members != []
    && (forall m | m in members :: m in history)
    && AggregatePreimage(StampsOf(members)) in hashed
    && H(AggregatePreimage(StampsOf(members))) == r.hash
  }

  ghost predicate ChildOf(H: Hasher, hashed: set<Bytes>, r: Record, parent: Record)
    requires r.source.Branch?
  {
    var preimage := BranchPreimage(r.source.previousHashId, parent.source.Kind(), parent.createdAt,
                                   parent.source.Generation(), r.source.payload);
    && parent.Id(H) == r.source.previousHashId
    && r.source.generation == parent.source.Generation() + 1
    && preimage in hashed && H(preimage) == r.hash
  }

  /** The record's digest was computed from records of `history`. */
  ghost predicate Justified(H: Hasher, history: History, hashed: set<Bytes>, r: Record) {
    && IdPreimage(r.hash, r.source.Kind()) in hashed
    && match r.source
       case Raw => true
       case Account(_) => true
       case Branch(_, _, _) => exists parent :: parent in history && ChildOf(H, hashed, r, parent)
       case Batch(members) => exists ms :: Aggregates(H, history, hashed, r, ms) && IdsOf(H, ms) == members
       case Pack => exists ms :: Aggregates(H, history, hashed, r, ms)
  }

  ghost predicate AllJustified(H: Hasher, history: History, hashed: set<Bytes>) {
    forall r | r in history :: Justified(H, history, hashed, r)
  }

  /** The account key itself is committed to by a hashed snapshot. */
  ghost predicate AccountBound(H: Hasher, hashed: set<Bytes>, r: Record) {
    r.source.Account? ==>
      exists s: Snapshot ::
        MetadataPreimage(r.source.account, s) in hashed && H(MetadataPreimage(r.source.account, s)) == r.hash
  }

  ghost predicate SourceAgrees(a: Source, b: Source) {
    a == b || (a.Account? && b.Account?)
  }

  lemma JustifiedGrows(
    H: Hasher, history: History, hashed: set<Bytes>, history': History, hashed': set<Bytes>, r: Record)
    requires Justified(H, history, hashed, r) && history <= history' && hashed <= hashed'
    ensures Justified(H, history', hashed', r)
  {
    match r.source
    case Branch(_, _, _) =>
      var parent :| parent in history && ChildOf(H, hashed, r, parent);
      assert parent in history' && ChildOf(H, hashed', r, parent);
    case Batch(members) =>
      var ms :| Aggregates(H, history, hashed, r, ms) && IdsOf(H, ms) == members;
      assert Aggregates(H, history', hashed', r, ms);
    case Pack =>
      var ms :| Aggregates(H, history, hashed, r, ms);
      assert Aggregates(H, history', hashed', r, ms);
    case _ =>
  }

  // ----- Reading the commitments back

  lemma IdBound(H: Hasher, hashed: set<Bytes>, h1: Digest, k1: byte, h2: Digest, k2: byte)
    requires CollisionFree(H, hashed) && IdPreimage(h1, k1) in hashed && IdPreimage(h2, k2) in hashed
    requires H(IdPreimage(h1, k1)) == H(IdPreimage(h2, k2))
    ensures h1 == h2 && k1 == k2
  {
    IdPreimageInjective(h1, k1, h2, k2);
  }

  /** Two aggregates with one hash have the same members, in order. */
  lemma AggregateBound(H: Hasher, hashed: set<Bytes>, a: seq<Stamp>, b: seq<Stamp>)
    requires CollisionFree(H, hashed)
    requires AggregatePreimage(a) in hashed && AggregatePreimage(b) in hashed
    requires H(AggregatePreimage(a)) == H(AggregatePreimage(b))
    ensures a == b
  {
    AggregatePreimageInjective(a, b);
  }

  lemma BranchBound(
    H: Hasher, hashed: set<Bytes>, previous: Digest, payload: Digest, f: Fingerprint, s: Record, parent: Record)
    requires CollisionFree(H, hashed) && s.source.Branch? && ChildOf(H, hashed, s, parent)
    requires IdPreimage(parent.hash, parent.source.Kind()) in hashed && IdPreimage(f.hash, f.kind) in hashed
    requires f.Id(H) == previous
    requires var preimage := BranchPreimage(previous, f.kind, f.createdAt, f.generation, payload);
             preimage in hashed && H(preimage) == s.hash
    ensures s.source.previousHashId == previous && s.source.payload == payload
    ensures s.source.generation == f.generation + 1
    ensures parent.AsFingerprint() == f
  {
    BranchPreimageInjective(previous, f.kind, f.createdAt, f.generation, payload,
                            s.source.previousHashId, parent.source.Kind(), parent.createdAt,
                            parent.source.Generation(), s.source.payload);
    IdBound(H, hashed, parent.hash, parent.source.Kind(), f.hash, f.kind);
  }

  lemma AccountKeyBound(H: Hasher, hashed: set<Bytes>, key: Key, snapshot: Snapshot, s: Record)
    requires CollisionFree(H, hashed) && s.source.Account? && AccountBound(H, hashed, s)
    requires MetadataPreimage(key, snapshot) in hashed && H(MetadataPreimage(key, snapshot)) == s.hash
    ensures s.source == Account(key)
  {
    var other: Snapshot :| MetadataPreimage(s.source.account, other) in hashed
      && H(MetadataPreimage(s.source.account, other)) == s.hash;
    MetadataKeyBound(key, snapshot, s.source.account, other);
  }
}
