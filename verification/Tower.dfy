/** The quadratic extension `F[X] / (X^2 + p1 X + p0)` of a characteristic-two field. */
module Towers {
  import opened Arithmetic
  import opened Fields

  /** `(x, c)` stands for `x X + c`. */
  type Pair<E> = (E, E)

  datatype Tower<!E(==, !new)> = Tower(base: Field<E>, p1: E, p0: E) {

    /** The base is a field and the extension polynomial has no root in it. */
    ghost predicate Valid() {
      base.Valid() && forall r {:trigger Value(r)} :: Value(r) != base.zero
    }

    /** The extension polynomial at a point. */
    function Value(r: E): E {
      base.Add(base.Add(base.Mul(r, r), base.Mul(p1, r)), p0)
    }

    // ----- the operations

    function Zero(): Pair<E> { (base.zero, base.zero) }

    function One(): Pair<E> { (base.zero, base.one) }

    function Constant(n: E): Pair<E> { (base.zero, n) }

    function Add(a: Pair<E>, b: Pair<E>): Pair<E> {
      (base.Add(a.0, b.0), base.Add(a.1, b.1))
    }

    /** The remainder of a polynomial of degree two. */
    function ReduceFrom(x2: E, x1: E, x0: E): Pair<E> {
      if x2 != base.zero then (base.Add(x1, base.Mul(p1, x2)), base.Add(x0, base.Mul(p0, x2))) else (x1, x0)
    }

    function Mul(a: Pair<E>, b: Pair<E>): Pair<E> {
      ReduceFrom(base.Mul(a.0, b.0), base.Add(base.Mul(a.1, b.0), base.Mul(a.0, b.1)), base.Mul(a.1, b.1))
    }

    function ConjugateC(a: Pair<E>): E { base.Add(a.1, base.Mul(p1, a.0)) }

    function Norm(a: Pair<E>): E {
      base.Add(base.Mul(a.1, ConjugateC(a)), base.Mul(p0, base.Mul(a.0, a.0)))
    }

    /** Inversion through the norm; the inverse of zero is zero. */
    function Inverse(a: Pair<E>): Pair<E> {
      if a.0 == base.zero then
        if a.1 == base.zero then Zero() else Constant(base.Div(base.one, a.1))
      else
        var normInverse := base.Div(base.one, Norm(a));
        (base.Mul(a.0, normInverse), base.Mul(ConjugateC(a), normInverse))
    }

    function Div(a: Pair<E>, b: Pair<E>): Pair<E> { Mul(a, Inverse(b)) }

    function Order(): nat { base.order * base.order }

    function Nth(n: nat): Pair<E>
    {
      if base.order == 0 then Zero() else (base.Nth(n / base.order), base.Nth(n % base.order))
    }

    // ----- the base acts on pairs

    function Scale(s: E, a: Pair<E>): Pair<E> { (base.Mul(s, a.0), base.Mul(s, a.1)) }

    /** Multiplication by `X`. */
    function Shift(a: Pair<E>): Pair<E> {
      (base.Add(a.1, base.Mul(p1, a.0)), base.Mul(p0, a.0))
    }

    lemma PairLaws(a: Pair<E>, b: Pair<E>, c: Pair<E>, s: E, t: E)
      requires Valid()
      ensures Add(a, b) == Add(b, a) && Add(Add(a, b), c) == Add(a, Add(b, c))
      ensures Add(a, Zero()) == a && Add(Zero(), a) == a && Add(a, a) == Zero()
      ensures Scale(s, Add(a, b)) == Add(Scale(s, a), Scale(s, b))
      ensures Scale(base.Add(s, t), a) == Add(Scale(s, a), Scale(t, a))
      ensures Scale(base.Mul(s, t), a) == Scale(s, Scale(t, a))
      ensures Scale(base.one, a) == a && Scale(base.zero, a) == Zero() && Scale(s, Zero()) == Zero()
    {
      base.Laws(a.0, b.0, c.0);
      base.Laws(a.1, b.1, c.1);
      base.Laws(s, a.0, b.0);
      base.Laws(s, a.1, b.1);
      base.Laws(a.0, s, t);
      base.Laws(a.1, s, t);
      base.Laws(s, t, a.0);
      base.Laws(s, t, a.1);
    }

    lemma AddSwap(a: Pair<E>, b: Pair<E>, c: Pair<E>, d: Pair<E>)
      requires Valid()
      ensures Add(Add(a, b), Add(c, d)) == Add(Add(a, c), Add(b, d))
    {
      base.AddSwap(a.0, b.0, c.0, d.0);
      base.AddSwap(a.1, b.1, c.1, d.1);
    }

    /** Skipping a zero leading coefficient changes nothing. */
    lemma ReduceAlways(x2: E, x1: E, x0: E)
      requires Valid()
      ensures ReduceFrom(x2, x1, x0) == (base.Add(x1, base.Mul(p1, x2)), base.Add(x0, base.Mul(p0, x2)))
    {
      base.Laws(p1, base.zero, x1);
      base.Laws(p0, base.zero, x0);
      base.Laws(x1, base.zero, x0);
      base.Laws(x0, base.zero, x0);
    }

    /** The product is the combination of `X b` and `b` with the coefficients of `a`. */
    lemma Decompose(a: Pair<E>, b: Pair<E>)
      requires Valid()
      ensures Mul(a, b) == Add(Scale(a.0, Shift(b)), Scale(a.1, b))
    {
      var m := base.Mul(a.0, b.0);
      ReduceAlways(m, base.Add(base.Mul(a.1, b.0), base.Mul(a.0, b.1)), base.Mul(a.1, b.1));
      // first coefficient: a0 b1 + a1 b0 + p1 (a1 b1) against a1 (b0 + p1 b1) + a0 b1
      var u, v, w := base.Mul(a.1, b.0), base.Mul(a.0, b.1), base.Mul(p1, m);
      MulSwap(p1, a.0, b.0);
      base.Laws(a.0, b.1, base.Mul(p1, b.0));
      base.Laws(u, v, w);
      base.Laws(u, base.Add(v, w), w);
      // constant coefficient: a0 b0 + p0 (a1 b1) against a1 (p0 b1) + a0 b0
      MulSwap(p0, a.0, b.0);
      base.Laws(base.Mul(a.1, b.1), base.Mul(p0, m), w);
    }

    lemma MulSwap(p: E, a: E, b: E)
      requires Valid()
      ensures base.Mul(p, base.Mul(a, b)) == base.Mul(a, base.Mul(p, b))
    {
      base.Laws(p, a, b);
      base.Laws(a, p, b);
    }

    lemma ShiftLinear(a: Pair<E>, b: Pair<E>, s: E)
      requires Valid()
      ensures Shift(Add(a, b)) == Add(Shift(a), Shift(b))
      ensures Shift(Scale(s, a)) == Scale(s, Shift(a))
    {
      base.Laws(p1, a.0, b.0);
      base.Laws(p0, a.0, b.0);
      base.AddSwap(a.1, b.1, base.Mul(p1, a.0), base.Mul(p1, b.0));
      MulSwap(p1, s, a.0);
      MulSwap(p0, s, a.0);
      base.Laws(s, a.1, base.Mul(p1, a.0));
    }

    /** `X` satisfies its polynomial: `X^2 = p1 X + p0`. */
    lemma ShiftTwice(a: Pair<E>)
      requires Valid()
      ensures Shift(Shift(a)) == Add(Scale(p1, Shift(a)), Scale(p0, a))
    {
      var s := base.Add(a.1, base.Mul(p1, a.0));
      base.Laws(base.Mul(p0, a.0), base.Mul(p1, s), p0);
      base.Laws(p0, a.1, base.Mul(p1, a.0));
      MulSwap(p0, p1, a.0);
      base.Laws(base.Mul(p0, a.1), base.Mul(p1, base.Mul(p0, a.0)), p0);
    }

    // ----- the field laws

    lemma MulComm(a: Pair<E>, b: Pair<E>)
      requires Valid()
      ensures Mul(a, b) == Mul(b, a)
    {
      base.Laws(a.0, b.0, p0);
      base.Laws(a.1, b.1, p0);
      base.Laws(a.1, b.0, p0);
      base.Laws(a.0, b.1, p0);
      base.Laws(base.Mul(a.1, b.0), base.Mul(a.0, b.1), p0);
    }

    lemma MulAdd(a: Pair<E>, b: Pair<E>, c: Pair<E>)
      requires Valid()
      ensures Mul(a, Add(b, c)) == Add(Mul(a, b), Mul(a, c))
    {
      Decompose(a, Add(b, c));
      Decompose(a, b);
      Decompose(a, c);
      ShiftLinear(b, c, a.0);
      PairLaws(Shift(b), Shift(c), b, a.0, a.0);
      PairLaws(b, c, b, a.1, a.1);
      AddSwap(Scale(a.0, Shift(b)), Scale(a.0, Shift(c)), Scale(a.1, b), Scale(a.1, c));
    }

    lemma ScaleMul(s: E, a: Pair<E>, b: Pair<E>)
      requires Valid()
      ensures Mul(Scale(s, a), b) == Scale(s, Mul(a, b))
    {
      Decompose(Scale(s, a), b);
      Decompose(a, b);
      PairLaws(Shift(b), b, b, s, a.0);
      PairLaws(b, b, b, s, a.1);
      PairLaws(Scale(a.0, Shift(b)), Scale(a.1, b), b, s, s);
    }

    lemma ShiftMul(b: Pair<E>, c: Pair<E>)
      requires Valid()
      ensures Mul(Shift(b), c) == Shift(Mul(b, c))
    {
      var sc := Shift(c);
      Decompose(Shift(b), c);
      Decompose(b, c);
      ShiftLinear(Scale(b.0, sc), Scale(b.1, c), p0);
      ShiftLinear(sc, sc, b.0);
      ShiftLinear(c, c, b.1);
      ShiftTwice(c);
      // right: b1 (p1 Xc + p0 c) + b0 Xc; left: (b0 + p1 b1) Xc + (p0 b1) c
      PairLaws(Scale(p1, sc), Scale(p0, c), c, b.0, p1);
      PairLaws(sc, sc, sc, b.0, p1);
      PairLaws(c, c, c, b.0, p0);
      PairLaws(sc, sc, sc, b.1, base.Mul(p1, b.0));
      base.Laws(p1, b.0, p0);
      base.Laws(p0, b.0, p0);
      var u, v, w := Scale(b.1, sc), Scale(b.0, Scale(p1, sc)), Scale(b.0, Scale(p0, c));
      assert Mul(Shift(b), c) == Add(Add(u, v), w);
      assert Shift(Mul(b, c)) == Add(Add(v, w), u);
      PairLaws(u, v, w, p0, p0);
      PairLaws(Add(v, w), u, w, p0, p0);
    }

    lemma MulAssoc(a: Pair<E>, b: Pair<E>, c: Pair<E>)
      requires Valid()
      ensures Mul(Mul(a, b), c) == Mul(a, Mul(b, c))
    {
      var x, y := Scale(a.0, Shift(b)), Scale(a.1, b);
      Decompose(a, b);
      MulComm(Add(x, y), c);
      MulAdd(c, x, y);
      MulComm(c, x);
      MulComm(c, y);
      ScaleMul(a.0, Shift(b), c);
      ScaleMul(a.1, b, c);
      ShiftMul(b, c);
      Decompose(a, Mul(b, c));
    }

    lemma MulOne(a: Pair<E>)
      requires Valid()
      ensures Mul(a, One()) == a
    {
      MulComm(a, One());
      Decompose(One(), a);
      PairLaws(Shift(a), a, a, base.one, base.one);
      PairLaws(a, a, a, base.one, base.one);
    }

    // ----- inversion

    /** An element times its conjugate is its norm. */
    lemma ConjugateProduct(a: Pair<E>)
      requires Valid()
      ensures Mul(a, (a.0, ConjugateC(a))) == Constant(Norm(a))
    {
      var m := base.Mul(a.0, a.0);
      ReduceAlways(m, base.Add(base.Mul(a.1, a.0), base.Mul(a.0, ConjugateC(a))), base.Mul(a.1, ConjugateC(a)));
      base.Laws(a.0, a.1, base.Mul(p1, a.0));
      MulSwap(p1, a.0, a.0);
      var u, v := base.Mul(a.0, a.1), base.Mul(p1, m);
      base.Laws(u, u, v);
      base.Laws(u, v, v);
      base.Laws(v, v, v);
    }

    /** The norm of `x X + c` is the extension polynomial at `c / x`, times `x^2`. */
    lemma NormIsValue(a: Pair<E>)
      requires Valid() && a.0 != base.zero
      ensures Norm(a) == base.Mul(Value(base.Div(a.1, a.0)), base.Mul(a.0, a.0))
    {
      var r, x := base.Div(a.1, a.0), a.0;
      var xx := base.Mul(x, x);
      base.Laws(a.1, x, x);
      // r^2 x^2 == c^2, p1 r x^2 == p1 c x
      base.Laws(xx, base.Add(base.Mul(r, r), base.Mul(p1, r)), p0);
      base.Laws(xx, base.Mul(r, r), base.Mul(p1, r));
      SquareTimes(r, x);
      LinearTimes(p1, r, x);
      base.Laws(a.1, a.1, base.Mul(p1, x));
      MulSwap(p1, a.1, x);
    }

    lemma SquareTimes(r: E, x: E)
      requires Valid()
      ensures base.Mul(base.Mul(r, r), base.Mul(x, x)) == base.Mul(base.Mul(r, x), base.Mul(r, x))
    {
      base.Laws(r, r, base.Mul(x, x));
      base.Laws(r, x, x);
      base.Laws(r, x, base.Mul(r, x));
      base.Laws(x, r, x);
      base.Laws(x, base.Mul(r, x), r);
    }

    lemma LinearTimes(p: E, r: E, x: E)
      requires Valid()
      ensures base.Mul(base.Mul(p, r), base.Mul(x, x)) == base.Mul(p, base.Mul(base.Mul(r, x), x))
    {
      base.Laws(p, r, base.Mul(x, x));
      base.Laws(r, x, x);
    }

    /** No nonzero element has norm zero, because the extension polynomial has no root. */
    lemma NormNonZero(a: Pair<E>)
      requires Valid() && a.0 != base.zero
      ensures Norm(a) != base.zero
    {
      NormIsValue(a);
      var v := Value(base.Div(a.1, a.0));
      base.NoZeroDivisors(a.0, a.0);
      base.NoZeroDivisors(v, base.Mul(a.0, a.0));
    }

    /** Every nonzero element times its inverse is one. */
    lemma InverseIsInverse(a: Pair<E>)
      requires Valid() && a != Zero()
      ensures Mul(a, Inverse(a)) == One() && Mul(Inverse(a), a) == One()
    {
      MulComm(a, Inverse(a));
      if a.0 == base.zero {
        base.InverseNonZero(a.1);
        Decompose(a, Inverse(a));
        PairLaws(Shift(Inverse(a)), Inverse(a), a, a.1, a.1);
        PairLaws(Scale(a.1, Inverse(a)), a, a, a.1, a.1);
        base.Laws(a.1, base.zero, a.1);
      } else {
        var conjugate, n := (a.0, ConjugateC(a)), Norm(a);
        var i := base.Div(base.one, n);
        NormNonZero(a);
        base.InverseNonZero(n);
        ConjugateProduct(a);
        base.Laws(a.0, i, i);
        base.Laws(ConjugateC(a), i, i);
        assert Inverse(a) == Scale(i, conjugate);
        ScaleMul(i, conjugate, a);
        MulComm(conjugate, a);
        base.Laws(i, base.zero, i);
      }
    }

    lemma DivUndoes(a: Pair<E>, b: Pair<E>)
      requires Valid() && b != Zero()
      ensures Mul(Div(a, b), b) == a
    {
      MulAssoc(a, Inverse(b), b);
      InverseIsInverse(b);
      MulOne(a);
    }

    // ----- numbering

    lemma NthInjective(m: nat, n: nat)
      requires Valid() && m < Order() && n < Order() && Nth(m) == Nth(n)
      ensures m == n
    {
      hide Nth;
      var h, l := NthDigits(m);
      var h', l' := NthDigits(n);
      assert base.NthLaw(h, h') && base.NthLaw(l, l');
    }

    lemma NthDigits(m: nat) returns (high: nat, low: nat)
      requires m < Order()
      ensures high < base.order && low < base.order && m == high * base.order + low
      ensures Nth(m) == (base.Nth(high), base.Nth(low))
    {
      DigitsOf(m, base.order);
      high, low := m / base.order, m % base.order;
    }

    lemma NthOnto(a: Pair<E>) returns (n: nat)
      requires Valid()
      ensures n < Order() && Nth(n) == a
    {
      var q := base.order;
      assert base.Law(a.0, a.0, a.0) && base.Law(a.1, a.1, a.1);
      var i: nat :| i < q && base.Nth(i) == a.0;
      var j: nat :| j < q && base.Nth(j) == a.1;
      n := i * q + j;
      Digits(i, j, q);
    }
  }

  lemma MulLess(x: nat, y: nat, q: nat)
    requires x * q < y * q
    ensures x < y
  {
    if y <= x {
      MulMonotone(y, x, q);
    }
  }

  /** A number below `q^2` has two digits in base `q`. */
  lemma DigitsOf(m: nat, q: nat)
    requires m < q * q
    ensures q > 0 && m / q < q && m % q < q && m == (m / q) * q + m % q
  {
    MulLess(m / q, q, q);
  }

  lemma QuotientRemainder(n: nat, q: nat) returns (d: nat, r: nat)
    requires q > 0
    ensures d == n / q && r == n % q && n == d * q + r && r < q
  {
    d, r := n / q, n % q;
  }

  lemma SameDigits(i: nat, j: nat, d: nat, r: nat, q: nat)
    requires i * q + j == d * q + r && j < q && r < q
    ensures i == d && j == r
  {
    if i < d {
      MulMonotone(i + 1, d, q);
    }
    if d < i {
      MulMonotone(d + 1, i, q);
    }
  }

  lemma Digits(i: nat, j: nat, q: nat)
    requires i < q && j < q
    ensures i * q + j < q * q && (i * q + j) / q == i && (i * q + j) % q == j
  {
    var n := i * q + j;
    MulMonotone(i + 1, q, q);
    assert (i + 1) * q == i * q + q;
    var d, r := QuotientRemainder(n, q);
    SameDigits(i, j, d, r, q);
  }
}
