/** Bytes, fixed-width integers and the hash function.  SHA-256 is never interpreted: every
    statement holds for an arbitrary function from byte strings to 32-byte digests. */
module Encoding {

  type byte = b: int | 0 <= b < 256
  type Bytes = seq<byte>
  type Digest = d: Bytes | |d| == 32 witness seq(32, _ => 0)
  /** A Solana public key. */
  type Key = Digest
  type Hasher = Bytes -> Digest

  const U64_LIMIT: int := 0x1_0000_0000_0000_0000

  type u64 = n: int | 0 <= n < 0x1_0000_0000_0000_0000
  type i64 = n: int | -0x8000_0000_0000_0000 <= n < 0x8000_0000_0000_0000

  /** No two of these strings share a digest. */
  ghost predicate CollisionFree(H: Hasher, strings: set<Bytes>) {
    forall x, y | x in strings && y in strings && H(x) == H(y) :: x == y
  }

  function LittleEndian(n: nat, width: nat): (r: Bytes)
    ensures |r| == width
  {
    if width == 0 then [] else [n % 256] + LittleEndian(n / 256, width - 1)
  }

  function PowerOf256(k: nat): (r: nat) {
    if k == 0 then 1 else 256 * PowerOf256(k - 1)
  }

  lemma {:induction false} MultipleGrows(d: nat, a: nat, b: nat)
    requires a < b
    ensures d * a + d <= d * b
    decreases b
  {
    assert d * b == d * (b - 1) + d;
    if a < b - 1 {
      MultipleGrows(d, a, b - 1);
    }
  }

  lemma QuotientUnique(d: nat, x: nat, s: nat, q: nat, r: nat)
    requires s < d && r < d && d * x + s == d * q + r
    ensures x == q
  {
    if x < q {
      MultipleGrows(d, x, q);
    } else if q < x {
      MultipleGrows(d, q, x);
    }
  }

  lemma Divided(n: nat, d: nat) returns (q: nat, r: nat)
    requires d > 0
    ensures q == n / d && n == d * q + r && r < d
  {
    q, r := n / d, n % d;
  }

  lemma DigitsCombine(n: nat, p: nat, q: nat, r: nat, a: nat, b: nat)
    requires n == 256 * q + r && r < 256 && q == p * a + b && b < p
    ensures n == (256 * p) * a + (256 * b + r) && 256 * b + r < 256 * p
  {
    assert 256 * (p * a) == (256 * p) * a;
  }

  lemma QuotientsAgree(n: nat, p: nat, d: nat, q: nat, r: nat, a: nat, b: nat, x: nat, s: nat)
    requires d == 256 * p && n == 256 * q + r && r < 256 && q == p * a + b && b < p
    requires n == d * x + s && s < d
    ensures a == x
  {
    DigitsCombine(n, p, q, r, a, b);
    QuotientUnique(d, x, s, a, 256 * b + r);
  }

  lemma DividedTwice(n: nat, p: nat, d: nat)
    requires p > 0 && d == 256 * p
    ensures n / 256 / p == n / d
  {
    var q, r := Divided(n, 256);
    var a, b := Divided(q, p);
    var x, s := Divided(n, d);
    QuotientsAgree(n, p, d, q, r, a, b, x, s);
  }

  lemma {:induction false} PowerPositive(k: nat)
    ensures PowerOf256(k) > 0
  {
    if k > 0 {
      PowerPositive(k - 1);
    }
  }

  /** Byte `i` is the digit of weight 256^i: the lowest comes first. */
  lemma {:induction false} LittleEndianAt(n: nat, width: nat, i: nat)
    requires i < width
    ensures PowerOf256(i) > 0 && LittleEndian(n, width)[i] == n / PowerOf256(i) % 256
    decreases width
  {
    PowerPositive(i);
    if i > 0 {
      LittleEndianAt(n / 256, width - 1, i - 1);
      assert LittleEndian(n, width)[i] == LittleEndian(n / 256, width - 1)[i - 1];
      DividedTwice(n, PowerOf256(i - 1), PowerOf256(i));
    }
  }

  lemma {:induction false} LittleEndianInjective(a: nat, b: nat, width: nat)
    requires a < PowerOf256(width) && b < PowerOf256(width)
    requires LittleEndian(a, width) == LittleEndian(b, width)
    ensures a == b
    decreases width
  {
    if width > 0 {
      var x, y := LittleEndian(a, width), LittleEndian(b, width);
      assert x[0] == y[0];
      assert x[1..] == LittleEndian(a / 256, width - 1) && y[1..] == LittleEndian(b / 256, width - 1);
      LittleEndianInjective(a / 256, b / 256, width - 1);
    }
  }

  function U64Bytes(n: u64): (r: Bytes)
    ensures |r| == 8
  {
    LittleEndian(n, 8)
  }

  /** Two's complement. */
  function I64Bytes(n: i64): (r: Bytes)
    ensures |r| == 8
  {
    LittleEndian(if n < 0 then n + U64_LIMIT else n, 8)
  }

  lemma EightBytes()
    ensures PowerOf256(8) == U64_LIMIT
  {
    assert PowerOf256(4) == 0x1_0000_0000;
    assert PowerOf256(6) == 0x1_0000_0000_0000;
  }

  lemma U64BytesInjective(a: u64, b: u64)
    requires U64Bytes(a) == U64Bytes(b)
    ensures a == b
  {
    EightBytes();
    LittleEndianInjective(a, b, 8);
  }

  lemma I64BytesInjective(a: i64, b: i64)
    requires I64Bytes(a) == I64Bytes(b)
    ensures a == b
  {
    EightBytes();
    LittleEndianInjective(if a < 0 then a + U64_LIMIT else a, if b < 0 then b + U64_LIMIT else b, 8);
  }
}
