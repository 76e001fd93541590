/** The bytes of the two account types, and that each allocation holds them with its padding. */
module AccountLayouts {
  import opened Encoding
  import opened Records
  import opened Ledger

  /** Both account types start with an eight-byte type tag. */
  const TAG := 8

  function MemberBytes(members: seq<Digest>): (r: Bytes)
    ensures |r| == 32 * |members|
  {
    if members == [] then [] else MemberBytes(members[..|members| - 1]) + members[|members| - 1]
  }

  function SourceBytes(source: Source): (r: Bytes)
    ensures |r| > 0 && r[0] == source.Kind()
  {
    [source.Kind()] +
    match source
    case Account(account) => account
    case Branch(previous, payload, generation) => previous + payload + U64Bytes(generation)
    case Batch(members) => LittleEndian(|members|, 4) + MemberBytes(members)
    case _ => []
  }

  /** What follows the source: counter, creation time and bump. */
  function TailBytes(voters: u64, createdAt: i64, bump: byte): (r: Bytes)
    ensures |r| == 17
  {
    U64Bytes(voters) + I64Bytes(createdAt) + [bump]
  }

  function RecordBytes(r: Record, voters: u64, bump: byte): Bytes {
    r.hash + (SourceBytes(r.source) + TailBytes(voters, r.createdAt, bump))
  }

  function VoteBytes(v: VoteState, bump: byte): Bytes {
    v.voter + v.hashId + U64Bytes(v.amount) + [bump]
  }

  /** A record's allocation holds its encoding and two bytes of padding for a batch, else six. */
  lemma SpaceHoldsRecord(r: Record, voters: u64, bump: byte)
    ensures r.source.Space() == TAG + |RecordBytes(r, voters, bump)| + if r.source.Batch? then 2 else 6
  {
  }

  lemma SpaceHoldsVote(v: VoteState, bump: byte)
    ensures VOTE_INFO_SPACE == TAG + |VoteBytes(v, bump)| + 7
  {
  }

  lemma {:induction false} MemberBytesInjective(a: seq<Digest>, b: seq<Digest>)
    requires MemberBytes(a) == MemberBytes(b)
    ensures a == b
    decreases |a|
  {
    assert |a| == |b|;
    if a != [] {
      var n := |a| - 1;
      assert MemberBytes(a)[..32 * n] == MemberBytes(a[..n]) && MemberBytes(b)[..32 * n] == MemberBytes(b[..n]);
      assert MemberBytes(a)[32 * n..] == a[n] && MemberBytes(b)[32 * n..] == b[n];
      MemberBytesInjective(a[..n], b[..n]);
      assert a == a[..n] + [a[n]] && b == b[..n] + [b[n]];
    }
  }

  /** Equally long heads of equal strings are equal. */
  lemma SameHead(a: Bytes, x: Bytes, b: Bytes, y: Bytes)
    requires |a| == |b| && a + x == b + y
    ensures a == b && x == y
  {
    var s, t := a + x, b + y;
    assert s[..|a|] == a && t[..|b|] == b;
    assert s[|a|..] == x && t[|b|..] == y;
  }

  lemma BranchBytes(previous: Digest, payload: Digest, generation: u64, x: Bytes)
    ensures SourceBytes(Branch(previous, payload, generation)) + x
         == [2] + (previous + (payload + (U64Bytes(generation) + x)))
  {
  }

  lemma AccountBytes(account: Key, x: Bytes)
    ensures SourceBytes(Account(account)) + x == [1] + (account + x)
  {
  }

  lemma BatchBytes(members: seq<Digest>, x: Bytes)
    ensures SourceBytes(Batch(members)) + x == [3] + (LittleEndian(|members|, 4) + (MemberBytes(members) + x))
  {
  }

  lemma BranchBytesInjective(p: Digest, q: Digest, g: u64, x: Bytes, p': Digest, q': Digest, g': u64, y: Bytes)
    requires SourceBytes(Branch(p, q, g)) + x == SourceBytes(Branch(p', q', g')) + y
    ensures p == p' && q == q' && g == g' && x == y
  {
    BranchBytes(p, q, g, x);
    BranchBytes(p', q', g', y);
    SameHead([2], p + (q + (U64Bytes(g) + x)), [2], p' + (q' + (U64Bytes(g') + y)));
    SameHead(p, q + (U64Bytes(g) + x), p', q' + (U64Bytes(g') + y));
    SameHead(q, U64Bytes(g) + x, q', U64Bytes(g') + y);
    SameHead(U64Bytes(g), x, U64Bytes(g'), y);
    U64BytesInjective(g, g');
  }

  lemma BatchBytesInjective(a: seq<Digest>, x: Bytes, b: seq<Digest>, y: Bytes)
    requires SourceBytes(Batch(a)) + x == SourceBytes(Batch(b)) + y
    requires |a| < PowerOf256(4) && |b| < PowerOf256(4)
    ensures a == b && x == y
  {
    BatchBytes(a, x);
    BatchBytes(b, y);
    var m, n := LittleEndian(|a|, 4), LittleEndian(|b|, 4);
    SameHead([3], m + (MemberBytes(a) + x), [3], n + (MemberBytes(b) + y));
    SameHead(m, MemberBytes(a) + x, n, MemberBytes(b) + y);
    LittleEndianInjective(|a|, |b|, 4);
    SameHead(MemberBytes(a), x, MemberBytes(b), y);
    MemberBytesInjective(a, b);
  }

  lemma SourceBytesInjective(a: Source, b: Source, x: Bytes, y: Bytes)
    requires SourceBytes(a) + x == SourceBytes(b) + y
    requires (a.Batch? ==> |a.members| < PowerOf256(4)) && (b.Batch? ==> |b.members| < PowerOf256(4))
    ensures a == b && x == y
  {
    assert (SourceBytes(a) + x)[0] == a.Kind() && (SourceBytes(b) + y)[0] == b.Kind();
    match a
    case Account(_) =>
      AccountBytes(a.account, x);
      AccountBytes(b.account, y);
      SameHead([1], a.account + x, [1], b.account + y);
      SameHead(a.account, x, b.account, y);
    case Branch(_, _, _) =>
      BranchBytesInjective(a.previousHashId, a.payload, a.generation, x, b.previousHashId, b.payload, b.generation, y);
    case Batch(_) => BatchBytesInjective(a.members, x, b.members, y);
    case _ => SameHead(SourceBytes(a), x, SourceBytes(b), y);
  }

  lemma TailBytesInjective(n: u64, t: i64, b: byte, n': u64, t': i64, b': byte)
    requires TailBytes(n, t, b) == TailBytes(n', t', b')
    ensures n == n' && t == t' && b == b'
  {
    SameHead(U64Bytes(n) + I64Bytes(t), [b], U64Bytes(n') + I64Bytes(t'), [b']);
    SameHead(U64Bytes(n), I64Bytes(t), U64Bytes(n'), I64Bytes(t'));
    assert [b][0] == [b'][0];
    U64BytesInjective(n, n');
    I64BytesInjective(t, t');
  }

  /** A stored record can be read back: no two records, counters or bumps share their bytes. */
  lemma RecordBytesInjective(r: Record, n: u64, b: byte, r': Record, n': u64, b': byte)
    requires RecordBytes(r, n, b) == RecordBytes(r', n', b')
    requires r.source.Batch? ==> |r.source.members| < PowerOf256(4)
    requires r'.source.Batch? ==> |r'.source.members| < PowerOf256(4)
    ensures r == r' && n == n' && b == b'
  {
    var x, x' := TailBytes(n, r.createdAt, b), TailBytes(n', r'.createdAt, b');
    SameHead(r.hash, SourceBytes(r.source) + x, r'.hash, SourceBytes(r'.source) + x');
    SourceBytesInjective(r.source, r'.source, x, x');
    TailBytesInjective(n, r.createdAt, b, n', r'.createdAt, b');
  }
}
