/** Java's 32-bit `int` arithmetic, written out over Dafny's unbounded integers. */
module JavaInt {

  const MinInt32: int := -0x8000_0000
  const MaxInt32: int := 0x7fff_ffff
  const Modulus: int := 0x1_0000_0000

  type Int32 = x: int | MinInt32 <= x <= MaxInt32

  predicate InInt32(x: int) {
    MinInt32 <= x <= MaxInt32
  }

  /** The two's-complement value a 32-bit multiplication leaves behind:
      the unique Int32 congruent to x modulo 2^32. */
  function Wrap32(x: int): (r: Int32)
    ensures (x - r) % Modulus == 0
    ensures InInt32(x) ==> r == x
  {
    var k := (x - MinInt32) / Modulus;
    assert x - MinInt32 - k * Modulus == (x - MinInt32) % Modulus;
    x - k * Modulus
  }

  /** Java's `/` on int for a positive divisor: the quotient is truncated
      toward zero, so the remainder takes the sign of the dividend. */
  function TruncDiv(a: int, d: int): (q: int)
    requires d > 0
    ensures a >= 0 ==> 0 <= a - q * d < d
    ensures a < 0 ==> -d < a - q * d <= 0
    ensures a >= 0 ==> 0 <= q <= a
    ensures a < 0 ==> a <= q <= 0
  {
    var n := if a >= 0 then a else -a;
    var p := n / d;
    assert n - p * d == n % d;
    MulFacts(p, d);
    if a >= 0 then p else -p
  }

  /** The two remainder conditions of TruncDiv determine the quotient. */
  lemma TruncDivUnique(a: int, d: int, q: int)
    requires d > 0
    requires a >= 0 ==> 0 <= a - q * d < d
    requires a < 0 ==> -d < a - q * d <= 0
    ensures TruncDiv(a, d) == q
  {
    var p := TruncDiv(a, d);
    var k := p - q;
    assert k * d == (a - q * d) - (a - p * d);
    MulFacts(k, d);
  }

  /** Sign and size facts about k * d for a positive d. */
  lemma MulFacts(k: int, d: int)
    requires d > 0
    ensures k >= 0 ==> 0 <= k <= k * d
    ensures k <= 0 ==> k * d <= k <= 0
    ensures k >= 1 ==> k * d >= d
    ensures k <= -1 ==> k * d <= -d
  {
    if k >= 0 {
      assert k * d == k + k * (d - 1);
      if k >= 1 {
        assert k * d == d + (k - 1) * d;
      }
    } else {
      assert k * d == k - (-k) * (d - 1);
      assert k * d == -d - (-k - 1) * d;
    }
  }
}
