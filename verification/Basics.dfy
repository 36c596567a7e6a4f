/** Octets, bits and the little arithmetic that several parts share. */
module Basics {
  type Octet = x: nat | x < 256
  type Octets = seq<Octet>
  type Bits = seq<bool>

  const CR: Octet := 13
  const LF: Octet := 10

  const LONG_MAX: nat := 0x7fff_ffff_ffff_ffff

  function Pow2(n: nat): (r: nat)
    ensures 1 <= r
  {
    if n == 0 then 1 else 2 * Pow2(n - 1)
  }

  function Zeros(n: nat): (b: Bits)
    ensures |b| == n
  {
    seq(n, _ => false)
  }

  lemma Middle(a: Octets, b: Octets, c: Octets)
    ensures (a + b + c)[|a|..|a| + |b|] == b && (a + b + c)[|a| + |b|..] == c
  {
  }

  lemma Associative<T>(a: seq<T>, b: seq<T>, c: seq<T>)
    ensures a + b + c == a + (b + c)
  {
  }

  function Digit(d: nat): Octet
    requires d < 10
  {
    48 + d
  }

  predicate IsDigit(c: Octet) {
    48 <= c < 58
  }

  /** What printf makes of a number. */
  function Decimal(v: nat): (r: Octets)
    ensures |r| > 0 && forall i :: 0 <= i < |r| ==> IsDigit(r[i])
  {
    if v < 10 then [Digit(v)] else Decimal(v / 10) + [Digit(v % 10)]
  }

  /** The cast to a 32-bit int. */
  function ToInt(v: int): (r: int)
    ensures -0x8000_0000 <= r < 0x8000_0000
  {
    (v + 0x8000_0000) % 0x1_0000_0000 - 0x8000_0000
  }

  /** Division with remainder is unique. */
  lemma Remainder(v: int, q: int, d: int, r: int)
    requires v == q * d + r && 0 <= r < d
    ensures v % d == r
  {
    var k := v / d - q;
    assert k * d == v / d * d - q * d;
    assert -d < k * d < d;
    assert k == 0;
  }
}
