/** Arithmetic on machine words that several components share. */
module Arithmetic {
  const USIZE_MAX: nat := 0xFFFF_FFFF_FFFF_FFFF

  lemma MulMonotone(x: nat, y: nat, b: nat)
    requires x <= y
    ensures x * b <= y * b
  {
  }

  function CeilDiv(a: nat, b: nat): (q: nat)
    requires b > 0
    ensures a <= q * b
    ensures q > 0 ==> (q - 1) * b < a
  {
    (a + b - 1) / b
  }

  lemma CeilDivLeast(a: nat, b: nat, q: nat)
    requires b > 0 && a <= q * b
    ensures CeilDiv(a, b) <= q
  {
    var c := CeilDiv(a, b);
    if c > q {
      assert (c - 1) * b >= q * b by { MulMonotone(q, c - 1, b); }
    }
  }

  lemma SmallerPartsAreMore(len: nat, a: nat, b: nat)
    requires 0 < a <= b
    ensures CeilDiv(len, b) <= CeilDiv(len, a)
  {
    MulMonotone(a, b, CeilDiv(len, a));
    assert CeilDiv(len, a) * b == b * CeilDiv(len, a);
    assert CeilDiv(len, a) * a == a * CeilDiv(len, a);
    CeilDivLeast(len, b, CeilDiv(len, a));
  }

  // ----- powers of two

  predicate IsPowerOfTwo(m: nat) {
    m == 1 || (m > 0 && m % 2 == 0 && IsPowerOfTwo(m / 2))
  }

  function NextPowerOfTwo(n: nat): (m: nat)
    ensures n <= m && m > 0
  {
    if n <= 1 then 1 else 2 * NextPowerOfTwo((n + 1) / 2)
  }

  /** `NextPowerOfTwo` is the least power of two from its argument on. */
  lemma {:induction false} NextPowerIsLeast(n: nat, p: nat)
    requires IsPowerOfTwo(p) && n <= p
    ensures IsPowerOfTwo(NextPowerOfTwo(n)) && NextPowerOfTwo(n) <= p
  {
    if n > 1 {
      NextPowerIsLeast((n + 1) / 2, p / 2);
    }
  }

  /** A smaller power of two divides a larger one. */
  lemma {:induction false} PowersDivide(a: nat, b: nat) returns (q: nat)
    requires IsPowerOfTwo(a) && IsPowerOfTwo(b) && a <= b
    ensures b == q * a
  {
    if a == 1 {
      q := b;
    } else {
      q := PowersDivide(a / 2, b / 2);
      assert b == 2 * (b / 2) && a == 2 * (a / 2);
    }
  }
}
