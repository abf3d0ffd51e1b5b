/** The tower as a field: exponentiation, and the interface every codec is generic over. */
module TowerFields {
  import opened Arithmetic
  import opened Fields
  import opened Towers
  import opened GroupOrder

  /** n-fold multiplication in the tower. */
  function TowerPow<E(==, !new)>(t: Tower<E>, a: Pair<E>, n: nat): Pair<E> {
    if n == 0 then t.One() else t.Mul(TowerPow(t, a, n - 1), a)
  }

  /** The field interface with plain repeated multiplication for `exp`. */
  function PlainField<E(==, !new)>(t: Tower<E>): Field<Pair<E>> {
    Field(t.Order(), t.Zero(), t.One(), (a: Pair<E>, b: Pair<E>) => t.Add(a, b), (a: Pair<E>, b: Pair<E>) => t.Mul(a, b),
          (a: Pair<E>, b: Pair<E>) => t.Div(a, b), (a: Pair<E>, n: nat) => TowerPow(t, a, n), (n: nat) => t.Nth(n))
  }

  /** The field interface with the reduced square-and-multiply `exp`. */
  function AsField<E(==, !new)>(t: Tower<E>): Field<Pair<E>> {
    PlainField(t).(exp := (a: Pair<E>, n: nat) => FastExp(t, a, n))
  }

  lemma {:induction false} PowIsTowerPow<E(!new)>(t: Tower<E>, f: Field<Pair<E>>, a: Pair<E>, n: nat)
    requires f == PlainField(t) || f == AsField(t)
    ensures f.Pow(a, n) == TowerPow(t, a, n)
  {
    if n > 0 {
      PowIsTowerPow(t, f, a, n - 1);
    }
  }

  lemma TowerLaws<E(!new)>(t: Tower<E>, a: Pair<E>, b: Pair<E>, c: Pair<E>)
    requires t.Valid()
    ensures t.Add(a, b) == t.Add(b, a) && t.Add(t.Add(a, b), c) == t.Add(a, t.Add(b, c))
    ensures t.Add(a, t.Zero()) == a && t.Add(a, a) == t.Zero()
    ensures t.Mul(a, b) == t.Mul(b, a) && t.Mul(t.Mul(a, b), c) == t.Mul(a, t.Mul(b, c)) && t.Mul(a, t.One()) == a
    ensures t.Mul(a, t.Add(b, c)) == t.Add(t.Mul(a, b), t.Mul(a, c))
    ensures b != t.Zero() ==> t.Mul(t.Div(a, b), b) == a
  {
    t.PairLaws(a, b, c, t.p0, t.p0);
    t.MulComm(a, b);
    t.MulAssoc(a, b, c);
    t.MulOne(a);
    t.MulAdd(a, b, c);
    if b != t.Zero() {
      t.DivUndoes(a, b);
    }
  }

  /** The tower over a valid base with a root-free polynomial is a field. */
  lemma PlainFieldValid<E(!new)>(t: Tower<E>)
    requires t.Valid()
    ensures PlainField(t).Valid()
  {
    var f := PlainField(t);
    hide Tower.Mul, Tower.Add, Tower.Div, Tower.Nth;
    forall a, b, c {:trigger f.Law(a, b, c)} | f.Law(a, b, c)
      ensures f.Add(a, b) == f.Add(b, a) && f.Add(f.Add(a, b), c) == f.Add(a, f.Add(b, c)) && f.Add(a, f.zero) == a && f.Add(a, a) == f.zero
      ensures f.Mul(a, b) == f.Mul(b, a) && f.Mul(f.Mul(a, b), c) == f.Mul(a, f.Mul(b, c)) && f.Mul(a, f.one) == a
      ensures f.Mul(a, f.Add(b, c)) == f.Add(f.Mul(a, b), f.Mul(a, c)) && (b != f.zero ==> f.Mul(f.Div(a, b), b) == a)
    {
      TowerLaws(t, a, b, c);
    }
    forall m: nat, n: nat {:trigger f.NthLaw(m, n)} | f.NthLaw(m, n)
      ensures m < f.order && n < f.order && f.Nth(m) == f.Nth(n) ==> m == n
    {
      if m < f.order && n < f.order && f.Nth(m) == f.Nth(n) {
        t.NthInjective(m, n);
      }
    }
    forall a {:trigger f.Law(a, a, a)} | f.Law(a, a, a) ensures exists n: nat :: n < f.order && f.Nth(n) == a {
      var n := t.NthOnto(a);
      assert f.Nth(n) == a;
    }
    forall a, n: nat {:trigger f.ExpLaw(a, n)} | f.ExpLaw(a, n) ensures f.Exp(a, n) == f.Pow(a, n) {
      PowIsTowerPow(t, f, a, n);
    }
  }

  // ----- exponentiation

  /** The highest power of two not above `n`. */
  function HighBit(n: nat): (b: nat)
    requires n > 0
    ensures 0 < b <= n < 2 * b
  {
    if n == 1 then 1 else 2 * HighBit(n / 2)
  }

  /** Square and multiply from the highest bit. */
  function BitExp<E(==, !new)>(t: Tower<E>, a: Pair<E>, n: nat): Pair<E>
    requires n > 0
  {
    if n == 1 then a
    else
      var half := BitExp(t, a, n / 2);
      var square := t.Mul(half, half);
      if n % 2 == 1 then t.Mul(square, a) else square
  }

  /** Zero is tested before the exponent is reduced modulo the group order. */
  function FastExp<E(==, !new)>(t: Tower<E>, a: Pair<E>, n: nat): Pair<E> {
    if n == 0 then t.Constant(t.base.one)
    else if a == t.Zero() then t.Zero()
    else
      var m := if t.Order() > 1 then n % (t.Order() - 1) else n;
      if m == 0 then t.Constant(t.base.one) else BitExp(t, a, m)
  }

  lemma {:induction false} BitExpIsPow<E(!new)>(t: Tower<E>, a: Pair<E>, n: nat)
    requires t.Valid() && n > 0
    ensures BitExp(t, a, n) == TowerPow(t, a, n)
  {
    var f := PlainField(t);
    PlainFieldValid(t);
    PowIsTowerPow(t, f, a, n);
    if n == 1 {
      t.MulOne(a);
      t.MulComm(t.One(), a);
    } else {
      var h := n / 2;
      BitExpIsPow(t, a, h);
      PowIsTowerPow(t, f, a, h);
      PowIsTowerPow(t, f, a, h + h);
      f.PowAdd(a, h, h);
    }
  }

  /** Reduced square-and-multiply is n-fold multiplication for every exponent, zero base included. */
  lemma FastExpIsPow<E(!new)>(t: Tower<E>, a: Pair<E>, n: nat)
    requires t.Valid()
    ensures FastExp(t, a, n) == TowerPow(t, a, n)
  {
    var f := PlainField(t);
    PlainFieldValid(t);
    PowIsTowerPow(t, f, a, n);
    if n > 0 {
      if a == t.Zero() {
        f.Laws(f.Pow(a, n - 1), f.zero, f.zero);
      } else {
        PowReduce(f, a, n);
        var m := n % (t.Order() - 1);
        PowIsTowerPow(t, f, a, m);
        if m > 0 {
          BitExpIsPow(t, a, m);
        }
      }
    }
  }

  /** The tower with its own exponentiation is a field, so every codec theorem applies to it. */
  lemma TowerIsField<E(!new)>(t: Tower<E>)
    requires t.Valid()
    ensures AsField(t).Valid()
  {
    PlainFieldValid(t);
    var p, f := PlainField(t), AsField(t);
    hide Tower.Mul, Tower.Add, Tower.Div, Tower.Nth, FastExp;
    forall a, b, c {:trigger f.Law(a, b, c)} | f.Law(a, b, c)
      ensures f.Add(a, b) == f.Add(b, a) && f.Add(f.Add(a, b), c) == f.Add(a, f.Add(b, c)) && f.Add(a, f.zero) == a && f.Add(a, a) == f.zero
      ensures f.Mul(a, b) == f.Mul(b, a) && f.Mul(f.Mul(a, b), c) == f.Mul(a, f.Mul(b, c)) && f.Mul(a, f.one) == a
      ensures f.Mul(a, f.Add(b, c)) == f.Add(f.Mul(a, b), f.Mul(a, c)) && (b != f.zero ==> f.Mul(f.Div(a, b), b) == a)
    {
      TowerLaws(t, a, b, c);
    }
    forall m: nat, n: nat {:trigger f.NthLaw(m, n)} | f.NthLaw(m, n)
      ensures m < f.order && n < f.order && f.Nth(m) == f.Nth(n) ==> m == n
    {
      assert p.NthLaw(m, n);
    }
    forall a {:trigger f.Law(a, a, a)} | f.Law(a, a, a) ensures exists n: nat :: n < f.order && f.Nth(n) == a {
      assert p.Law(a, a, a);
      var n: nat :| n < p.order && p.Nth(n) == a;
      assert f.Nth(n) == a;
    }
    forall a, n: nat {:trigger f.ExpLaw(a, n)} | f.ExpLaw(a, n) ensures f.Exp(a, n) == f.Pow(a, n) {
      FastExpIsPow(t, a, n);
      PowIsTowerPow(t, f, a, n);
    }
  }

  // ----- the loop

  /** A power of two, as the loop's moving bit. */
  predicate IsBit(b: nat) {
    b == 1 || (b > 1 && b % 2 == 0 && IsBit(b / 2))
  }

  lemma {:induction false} HighBitIsBit(n: nat)
    requires n > 0
    ensures IsBit(HighBit(n))
  {
    if n > 1 {
      HighBitIsBit(n / 2);
    }
  }

  /** What is left of `n` after shifting out the bits below `b`. */
  function Shifted(n: nat, b: nat): (q: nat)
    requires b > 0
    ensures q * b <= n < q * b + b
  {
    n / b
  }

  lemma ShiftedUnique(n: nat, b: nat, q: nat)
    requires b > 0 && q * b <= n < q * b + b
    ensures Shifted(n, b) == q
  {
    hide Shifted;
    SameDigits(Shifted(n, b), n - Shifted(n, b) * b, q, n - q * b, b);
  }

  /** One bit more is one doubling and the bit itself. */
  lemma HalfShifted(n: nat, b: nat)
    requires b > 0
    ensures Shifted(n, b) == 2 * Shifted(n, 2 * b) + Shifted(n, b) % 2
  {
    hide Shifted;
    var q := Shifted(n, b);
    var half, bit := q / 2, q % 2;
    SplitProduct(half, bit, b);
    ShiftedUnique(n, 2 * b, half);
  }

  lemma SplitProduct(half: nat, bit: nat, b: nat)
    requires bit < 2
    ensures (2 * half + bit) * b == half * (2 * b) + bit * b && bit * b <= b
  {
    MulMonotone(bit, 1, b);
    assert (2 * half) * b == half * (2 * b);
  }

  /** The loop of `exp`: one squaring, and for a set bit one multiplication, per lower bit. */
  method Exp<E(==, !new)>(t: Tower<E>, a: Pair<E>, n: nat) returns (power: Pair<E>)
    requires t.Valid()
    ensures power == TowerPow(t, a, n)
  {
    FastExpIsPow(t, a, n);
    if n == 0 {
      return t.Constant(t.base.one);
    }
    if a == t.Zero() {
      return t.Zero();
    }
    TowerOrder(t, a);
    var m := n % (t.Order() - 1);
    if m == 0 {
      return t.Constant(t.base.one);
    }
    power := PowerByBits(t, a, m);
    BitExpIsPow(t, a, m);
  }

  lemma TowerOrder<E(!new)>(t: Tower<E>, a: Pair<E>)
    requires t.Valid() && a != t.Zero()
    ensures t.Order() > 1
  {
    PlainFieldValid(t);
    PowOrder(PlainField(t), a);
  }

  method PowerByBits<E(==, !new)>(t: Tower<E>, a: Pair<E>, m: nat) returns (power: Pair<E>)
    requires t.Valid() && m > 0
    ensures power == TowerPow(t, a, m)
  {
    hide HighBit, BitExp, IsBit, TowerPow, Shifted, Tower.Mul, Tower.Valid;
    BitExpIsPow(t, a, m);
    power := a;
    ghost var prefix := 1;
    var bit: nat := HighBit(m) / 2;
    FirstBit(m);
    BitExpStart(t, a);
    while bit != 0
      invariant bit > 0 ==> IsBit(bit) && prefix == Shifted(m, 2 * bit)
      invariant bit == 0 ==> prefix == m
      invariant prefix > 0 && power == BitExp(t, a, prefix)
      decreases bit
    {
      NextBit(m, bit);
      BitExpStep(t, a, prefix, Shifted(m, bit) % 2);
      power := t.Mul(power, power);
      if Shifted(m, bit) % 2 == 1 {
        power := t.Mul(power, a);
      }
      prefix := Shifted(m, bit);
      bit := bit / 2;
    }
  }

  lemma FirstBit(m: nat)
    requires m > 0
    ensures var bit := HighBit(m) / 2;
      (bit > 0 ==> IsBit(bit) && Shifted(m, 2 * bit) == 1) && (bit == 0 ==> m == 1)
  {
    HighBitIsBit(m);
    ShiftedUnique(m, HighBit(m), 1);
  }

  lemma NextBit(m: nat, bit: nat)
    requires IsBit(bit)
    ensures bit > 0 && Shifted(m, bit) == 2 * Shifted(m, 2 * bit) + Shifted(m, bit) % 2
    ensures if bit / 2 > 0 then IsBit(bit / 2) && 2 * (bit / 2) == bit else Shifted(m, bit) == m
  {
    HalfShifted(m, bit);
    if bit == 1 {
      ShiftedUnique(m, 1, m);
    }
  }

  lemma BitExpStart<E(!new)>(t: Tower<E>, a: Pair<E>)
    ensures BitExp(t, a, 1) == a
  {
  }

  lemma BitExpStep<E(!new)>(t: Tower<E>, a: Pair<E>, p: nat, bit: nat)
    requires p > 0 && bit < 2
    ensures var square := t.Mul(BitExp(t, a, p), BitExp(t, a, p));
      BitExp(t, a, 2 * p + bit) == if bit == 1 then t.Mul(square, a) else square
  {
    assert (2 * p + bit) / 2 == p && (2 * p + bit) % 2 == bit;
  }
}
