/** A live anchor binds its whole history: an accepted proof can only list records that the
    history behind the anchor really contains. */
module AnchorBinding {
  import opened Outcomes
  import opened Encoding
  import opened Records
  import opened ProofGraph
  import opened ProofShape
  import opened Commitments
  import opened ProofMeaning
  import opened Justification

  ghost predicate Accepted(H: Hasher, proof: seq<Link>, existing: set<nat>) {
    Parse(H, proof).Success? && CheckGraph(H, proof, Parse(H, proof).value, existing).Pass?
  }

  // ----- The strings hashed while checking a proof

  ghost function CommitmentStrings(link: Link): set<Bytes> {
    match (link.record.source, link.params)
    case (Raw, Some(RawParams(payload))) => {payload}
    case (Account(key), Some(AccountParams(Some(s)))) => {MetadataPreimage(key, s)}
    case (Branch(previous, payload, _), Some(BranchParams(f))) =>
      {BranchPreimage(previous, f.kind, f.createdAt, f.generation, payload)}
    case (Batch(_), Some(BatchParams(metas))) => {AggregatePreimage(Stamps(metas))}
    case (Pack, Some(PackParams(metas))) => {AggregatePreimage(Stamps(metas))}
    case _ => {}
  }

  ghost function LinkStrings(link: Link): set<Bytes> {
    {IdPreimage(link.record.hash, link.record.source.Kind())}
    + (set f | f in FingerprintsIn(link) :: IdPreimage(f.hash, f.kind))
    + CommitmentStrings(link)
  }

  ghost function ProofStrings(proof: seq<Link>): set<Bytes> {
    set i, x | 0 <= i < |proof| && x in LinkStrings(proof[i]) :: x
  }

  ghost function RecordsIn(proof: seq<Link>): History {
    set i | 0 <= i < |proof| :: proof[i].record
  }

  lemma LinkStringsHashed(proof: seq<Link>, i: nat, hashed: set<Bytes>)
    requires i < |proof| && ProofStrings(proof) <= hashed
    ensures LinkStrings(proof[i]) <= hashed
  {
    forall x | x in LinkStrings(proof[i])
      ensures x in hashed
    {
      assert x in ProofStrings(proof);
    }
  }

  // ----- One link against a justified history

  ghost predicate Represented(history: History, r: Record, s: Record) {
    s in history && s.AsStamp() == r.AsStamp() && SourceAgrees(r.source, s.source)
  }

  /** A committed link and a justified record with the same hash and kind have the same
      source, and the history holds everything the link depends on. */
  lemma LinkBound(
    H: Hasher, proof: seq<Link>, link: Link, accountExists: bool, history: History, hashed: set<Bytes>, s: Record)
    requires CollisionFree(H, hashed) && AllJustified(H, history, hashed)
    requires Committed(H, proof, link, accountExists) && LinkStrings(link) <= hashed
    requires s in history && s.hash == link.record.hash && s.source.Kind() == link.record.source.Kind()
    ensures SourceAgrees(link.record.source, s.source)
    ensures forall f | f in FingerprintsIn(link) :: exists d :: d in history && d.AsStamp() == f.AsStamp()
  {
    forall f | f in FingerprintsIn(link)
      ensures IdPreimage(f.hash, f.kind) in hashed
    {
      assert IdPreimage(f.hash, f.kind) in LinkStrings(link);
    }
    match link.record.source
    case Branch(previous, payload, _) =>
      var parent :| parent in history && ChildOf(H, hashed, s, parent);
      BranchBound(H, hashed, previous, payload, link.params.value.parent, s, parent);
    case Batch(members) =>
      var metas := link.params.value.members;
      var ms :| Aggregates(H, history, hashed, s, ms) && IdsOf(H, ms) == s.source.members;
      MembersBound(H, hashed, metas, ms);
      assert IdsOf(H, ms) == Ids(H, metas);
    case Pack =>
      var metas := link.params.value.members;
      var ms :| Aggregates(H, history, hashed, s, ms);
      MembersBound(H, hashed, metas, ms);
    case _ =>
  }

  lemma MembersBound(H: Hasher, hashed: set<Bytes>, metas: seq<Fingerprint>, ms: seq<Record>)
    requires CollisionFree(H, hashed)
    requires AggregatePreimage(Stamps(metas)) in hashed && AggregatePreimage(StampsOf(ms)) in hashed
    requires H(AggregatePreimage(Stamps(metas))) == H(AggregatePreimage(StampsOf(ms)))
    ensures |ms| == |metas|
    ensures forall i | 0 <= i < |ms| :: ms[i].AsStamp() == metas[i].AsStamp() && ms[i].Id(H) == metas[i].Id(H)
    ensures forall f | f in metas :: exists m :: m in ms && m.AsStamp() == f.AsStamp()
  {
    AggregateBound(H, hashed, Stamps(metas), StampsOf(ms));
    forall i | 0 <= i < |ms|
      ensures ms[i].AsStamp() == metas[i].AsStamp()
    {
      assert StampsOf(ms)[i] == Stamps(metas)[i];
    }
    forall f | f in metas
      ensures exists m :: m in ms && m.AsStamp() == f.AsStamp()
    {
      var i :| 0 <= i < |metas| && metas[i] == f;
      assert ms[i] in ms;
    }
  }

  /** Every dependency of a committed link is described by one of its fingerprints. */
  lemma DependencyFingerprint(H: Hasher, proof: seq<Link>, link: Link, accountExists: bool, d: Digest)
    requires Committed(H, proof, link, accountExists)
    requires LinkDependencies(H, link).Success? && d in LinkDependencies(H, link).value
    ensures exists f :: f in FingerprintsIn(link) && f.Id(H) == d && Describes(proof, f)
  {
    match link.record.source
    case Batch(_) =>
      var metas := link.params.value.members;
      var i :| 0 <= i < |metas| && Ids(H, metas)[i] == d;
      assert metas[i] in metas;
    case Pack =>
      var metas := link.params.value.members;
      var i :| 0 <= i < |metas| && Ids(H, metas)[i] == d;
      assert metas[i] in metas;
    case Branch(_, _, _) =>
      assert link.params.value.parent in FingerprintsIn(link);
    case _ =>
  }

  // ----- The whole proof

  ghost predicate BindsTo(
    H: Hasher, proof: seq<Link>, existing: set<nat>, history: History, hashed: set<Bytes>)
  {
    && Accepted(H, proof, existing)
    && proof[0].record in history
    && AllJustified(H, history, hashed)
    && ProofStrings(proof) <= hashed && CollisionFree(H, hashed)
  }

  lemma AllCommitted(H: Hasher, proof: seq<Link>, existing: set<nat>)
    requires Accepted(H, proof, existing)
    ensures WellFormedProof(H, proof)
    ensures forall i | 0 <= i < |proof| :: Committed(H, proof, proof[i], i in existing)
  {
    ParseSoundAndComplete(H, proof);
    ValidatedExactlyWhenCommitted(H, proof, existing);
  }

  lemma CommittedAt(H: Hasher, proof: seq<Link>, existing: set<nat>, i: nat)
    requires Accepted(H, proof, existing) && i < |proof|
    ensures Committed(H, proof, proof[i], i in existing)
  {
    AllCommitted(H, proof, existing);
  }

  lemma SameIdSameEntry(H: Hasher, proof: seq<Link>, i: nat, j: nat)
    requires Parse(H, proof).Success? && i < |proof| && j < |proof|
    requires proof[i].record.Id(H) == proof[j].record.Id(H)
    ensures i == j
  {
    assert ProofIds(H, proof)[i] == ProofIds(H, proof)[j];
  }

  /** One edge: if an entry is in the history, so is what it depends on. */
  lemma StepBound(
    H: Hasher, proof: seq<Link>, existing: set<nat>, history: History, hashed: set<Bytes>, i: nat, j: nat, s: Record)
    returns (t: Record)
    requires BindsTo(H, proof, existing, history, hashed)
    requires i < |proof| && DependsDirectly(H, proof, i, j) && Represented(history, proof[i].record, s)
    ensures Represented(history, proof[j].record, t)
  {
    CommittedAt(H, proof, existing, i);
    CommittedAt(H, proof, existing, j);
    LinkStringsHashed(proof, i, hashed);
    LinkStringsHashed(proof, j, hashed);
    LinkBound(H, proof, proof[i], i in existing, history, hashed, s);
    DependencyFingerprint(H, proof, proof[i], i in existing, proof[j].record.Id(H));
    var f :| f in FingerprintsIn(proof[i]) && f.Id(H) == proof[j].record.Id(H) && Describes(proof, f);
    var k :| 0 <= k < |proof| && proof[k].record.AsFingerprint() == f;
    SameIdSameEntry(H, proof, k, j);
    t :| t in history && t.AsStamp() == f.AsStamp();
    LinkBound(H, proof, proof[j], j in existing, history, hashed, t);
  }

  /** Every entry of an accepted proof is in the history of its anchor. */
  lemma EntryBound(H: Hasher, proof: seq<Link>, existing: set<nat>, history: History, hashed: set<Bytes>, i: nat)
    returns (s: Record)
    requires BindsTo(H, proof, existing, history, hashed) && i < |proof|
    ensures Represented(history, proof[i].record, s)
  {
    var bound := set k | 0 <= k < |proof| && exists s :: Represented(history, proof[k].record, s);
    assert Represented(history, proof[0].record, proof[0].record);
    forall k, j | k in bound && k < |proof| && DependsDirectly(H, proof, k, j)
      ensures j in bound
    {
      var r :| Represented(history, proof[k].record, r);
      var t := StepBound(H, proof, existing, history, hashed, k, j, r);
    }
    ReachesEveryEntry(H, proof, bound);
    assert i in bound;
    s :| Represented(history, proof[i].record, s);
  }

  // ----- A proof is itself a justified history

  lemma LinkJustified(H: Hasher, proof: seq<Link>, existing: set<nat>, hashed: set<Bytes>, i: nat)
    requires Accepted(H, proof, existing) && ProofStrings(proof) <= hashed && i < |proof|
    ensures Justified(H, RecordsIn(proof), hashed, proof[i].record)
  {
    AllCommitted(H, proof, existing);
    LinkStringsHashed(proof, i, hashed);
    var link, history := proof[i], RecordsIn(proof);
    match link.record.source
    case Branch(_, _, _) =>
      var parent := link.params.value.parent;
      var j :| 0 <= j < |proof| && proof[j].record.AsFingerprint() == parent;
      assert proof[j].record in history && ChildOf(H, hashed, link.record, proof[j].record);
    case Batch(members) =>
      var ms := Described(H, proof, link.params.value.members);
      assert IdsOf(H, ms) == members;
      assert Aggregates(H, history, hashed, link.record, ms);
    case Pack =>
      var ms := Described(H, proof, link.params.value.members);
      assert Aggregates(H, history, hashed, link.record, ms);
    case _ =>
  }

  lemma {:induction false} Described(H: Hasher, proof: seq<Link>, metas: seq<Fingerprint>) returns (ms: seq<Record>)
    requires forall m | m in metas :: Describes(proof, m)
    ensures |ms| == |metas| && forall m | m in ms :: m in RecordsIn(proof)
    ensures forall i | 0 <= i < |ms| :: ms[i].AsFingerprint() == metas[i] && ms[i].Id(H) == metas[i].Id(H)
    ensures StampsOf(ms) == Stamps(metas)
    decreases |metas|
  {
    if metas == [] {
      ms := [];
    } else {
      var n := |metas| - 1;
      var init := Described(H, proof, metas[..n]);
      assert Describes(proof, metas[n]);
      var j :| 0 <= j < |proof| && proof[j].record.AsFingerprint() == metas[n];
      ms := init + [proof[j].record];
    }
  }

  // ----- Two proofs with one anchor

  ghost predicate Snapshotted(link: Link) {
    link.params.Some? && link.params.value.AccountParams? && link.params.value.snapshot.Some?
  }

  ghost predicate Agreeing(a: Link, b: Link) {
    && a.record.AsFingerprint() == b.record.AsFingerprint()
    && SourceAgrees(a.record.source, b.record.source)
    && (Snapshotted(a) && Snapshotted(b) ==> a.record == b.record)
  }

  lemma ProofJustified(H: Hasher, proof: seq<Link>, existing: set<nat>, hashed: set<Bytes>)
    requires Accepted(H, proof, existing) && ProofStrings(proof) <= hashed
    ensures AllJustified(H, RecordsIn(proof), hashed)
  {
    forall r | r in RecordsIn(proof)
      ensures Justified(H, RecordsIn(proof), hashed, r)
    {
      var j :| 0 <= j < |proof| && proof[j].record == r;
      LinkJustified(H, proof, existing, hashed, j);
    }
  }

  /** Entry `i` of one proof is an entry of the other, and the two agree. */
  lemma EntryMatched(H: Hasher, p: seq<Link>, ep: set<nat>, q: seq<Link>, eq: set<nat>, hashed: set<Bytes>, i: nat)
    returns (j: nat)
    requires Accepted(H, p, ep) && Accepted(H, q, eq) && p[0].record == q[0].record && i < |p|
    requires ProofStrings(p) <= hashed && ProofStrings(q) <= hashed && CollisionFree(H, hashed)
    ensures j < |q| && q[j].record.Id(H) == p[i].record.Id(H)
    ensures Agreeing(p[i], q[j])
  {
    ProofJustified(H, q, eq, hashed);
    assert q[0].record in RecordsIn(q);
    var s := EntryBound(H, p, ep, RecordsIn(q), hashed, i);
    j :| 0 <= j < |q| && q[j].record == s;
    CommittedAt(H, p, ep, i);
    CommittedAt(H, q, eq, j);
    if Snapshotted(p[i]) && Snapshotted(q[j]) {
      LinkStringsHashed(p, i, hashed);
      LinkStringsHashed(q, j, hashed);
      AccountKeyBound(H, hashed, p[i].record.source.account, p[i].params.value.snapshot.value, q[j].record);
    }
  }

  /** Two accepted proofs of one anchor list the same identities, and agree on every record's
      hash, kind, creation time, generation and source (an account's key when both proofs
      carry its snapshot), unless two of the strings they hash collide. */
  lemma AnchorBindsProof(H: Hasher, p: seq<Link>, ep: set<nat>, q: seq<Link>, eq: set<nat>)
    requires Accepted(H, p, ep) && Accepted(H, q, eq) && p[0].record == q[0].record
    requires CollisionFree(H, ProofStrings(p) + ProofStrings(q))
    ensures Elements(ProofIds(H, p)) == Elements(ProofIds(H, q))
    ensures forall i, j | 0 <= i < |p| && 0 <= j < |q| && p[i].record.Id(H) == q[j].record.Id(H) :: Agreeing(p[i], q[j])
  {
    var hashed := ProofStrings(p) + ProofStrings(q);
    forall id | id in Elements(ProofIds(H, p))
      ensures id in Elements(ProofIds(H, q))
    {
      var i :| 0 <= i < |p| && ProofIds(H, p)[i] == id;
      var j := EntryMatched(H, p, ep, q, eq, hashed, i);
      assert ProofIds(H, q)[j] == id;
    }
    forall id | id in Elements(ProofIds(H, q))
      ensures id in Elements(ProofIds(H, p))
    {
      var i :| 0 <= i < |q| && ProofIds(H, q)[i] == id;
      var j := EntryMatched(H, q, eq, p, ep, hashed, i);
      assert ProofIds(H, p)[j] == id;
    }
    forall i, j | 0 <= i < |p| && 0 <= j < |q| && p[i].record.Id(H) == q[j].record.Id(H)
      ensures Agreeing(p[i], q[j])
    {
      var k := EntryMatched(H, p, ep, q, eq, hashed, i);
      SameIdSameEntry(H, q, j, k);
    }
  }
}
