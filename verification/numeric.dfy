/**
 Powers of two and the bit length of a natural number: the arithmetic the
 integer codec needs to size and to interpret two's-complement octet strings.
 */
module Numeric {

  /** 2^n */
  function Pow2(n: nat): (r: nat)
    ensures r >= 1
  {
    if n == 0 then 1 else 2 * Pow2(n - 1)
  }

  lemma {:induction false} Pow2Add(a: nat, b: nat)
    ensures Pow2(a + b) == Pow2(a) * Pow2(b)
  {
    if a > 0 {
      Pow2Add(a - 1, b);
      assert Pow2(a + b) == 2 * Pow2(a - 1 + b);
    }
  }

  lemma {:induction false} Pow2Monotone(a: nat, b: nat)
    requires a <= b
    ensures Pow2(a) <= Pow2(b)
  {
    if a < b {
      Pow2Monotone(a, b - 1);
    }
  }

  /** One more octet multiplies the range by 256. */
  lemma Pow2Octet(n: nat)
    ensures Pow2(8 * (n + 1)) == 256 * Pow2(8 * n)
  {
    Pow2Add(8, 8 * n);
    assert Pow2(8) == 256;
  }

  /** Number of binary digits of n, with BitLen(0) == 0 (Ruby's Integer#bit_length on n >= 0). */
  function BitLen(n: nat): nat
  {
    if n == 0 then 0 else 1 + BitLen(n / 2)
  }

  /** n fits in k bits exactly when its bit length is at most k. */
  lemma {:induction false} BitLenFits(n: nat, k: nat)
    ensures n < Pow2(k) <==> BitLen(n) <= k
  {
    if n == 0 {
    } else if k == 0 {
    } else {
      BitLenFits(n / 2, k - 1);
    }
  }

  /** The bit length is k exactly when 2^(k-1) <= n < 2^k. */
  lemma BitLenIs(n: nat, k: nat)
    requires k >= 1 && Pow2(k - 1) <= n < Pow2(k)
    ensures BitLen(n) == k
  {
    BitLenFits(n, k);
    BitLenFits(n, k - 1);
  }

  /** The powers of two the octet arithmetic meets. */
  lemma Pow2Table()
    ensures Pow2(7) == 128 && Pow2(8) == 256
    ensures Pow2(15) == 32768 && Pow2(16) == 65536
  {
    assert Pow2(7) == 128;
    assert Pow2(8) == 256;
    Pow2Add(7, 8);
    Pow2Add(8, 8);
  }
}
