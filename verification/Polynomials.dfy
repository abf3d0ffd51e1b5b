/** Polynomials over a field, lowest coefficient first.

    The one theorem the code construction rests on: a polynomial with as many distinct
    roots as coefficients has only zero coefficients. */
module Polynomials {
  import opened Fields
  import opened Vectors

  function Eval<E(!new)>(f: Field<E>, p: seq<E>, x: E): E {
    if p == [] then f.zero else f.Add(p[0], f.Mul(x, Eval(f, p[1..], x)))
  }

  /** The powers `x^0 .. x^(n-1)`: one row of a Vandermonde matrix. */
  function Powers<E(!new)>(f: Field<E>, x: E, n: nat): (r: seq<E>)
    ensures |r| == n && forall i :: 0 <= i < n ==> r[i] == f.Pow(x, i)
  {
    seq(n, i requires 0 <= i => f.Pow(x, i))
  }

  /** Synthetic division: `p(x) - p(a) == (x - a) * Quotient(p, a)(x)`. */
  function Quotient<E(!new)>(f: Field<E>, p: seq<E>, a: E): (q: seq<E>)
    ensures |q| == if |p| == 0 then 0 else |p| - 1
  {
    if |p| <= 1 then [] else [Eval(f, p[1..], a)] + Quotient(f, p[1..], a)
  }

  lemma {:induction false} EvalSnoc<E(!new)>(f: Field<E>, p: seq<E>, c: E, x: E)
    requires f.Valid()
    ensures Eval(f, p + [c], x) == f.Add(Eval(f, p, x), f.Mul(c, f.Pow(x, |p|)))
  {
    if p == [] {
      assert (p + [c])[1..] == [];
      f.Laws(x, f.zero, f.zero);
      f.Laws(c, f.zero, f.zero);
    } else {
      assert (p + [c])[1..] == p[1..] + [c];
      EvalSnoc(f, p[1..], c, x);
      var e, h := Eval(f, p[1..], x), f.Pow(x, |p| - 1);
      f.Laws(x, e, f.Mul(c, h));
      f.Laws(x, f.Mul(c, h), h);
      f.Laws(c, h, x);
      f.Laws(p[0], f.Mul(x, e), f.Mul(c, f.Mul(h, x)));
    }
  }

  lemma {:induction false} PowersDotN<E(!new)>(f: Field<E>, x: E, w: nat, p: seq<E>, n: nat)
    requires f.Valid() && n <= w && n <= |p|
    ensures DotN(f, Powers(f, x, w), p, n) == Eval(f, p[..n], x)
  {
    if n > 0 {
      PowersDotN(f, x, w, p, n - 1);
      assert p[..n] == p[..n - 1] + [p[n - 1]];
      EvalSnoc(f, p[..n - 1], p[n - 1], x);
      f.Laws(p[n - 1], f.Pow(x, n - 1), f.zero);
    }
  }

  /** A Vandermonde row applied to a coefficient vector evaluates the polynomial. */
  lemma PowersDot<E(!new)>(f: Field<E>, x: E, p: seq<E>)
    requires f.Valid()
    ensures Dot(f, Powers(f, x, |p|), p) == Eval(f, p, x)
  {
    PowersDotN(f, x, |p|, p, |p|);
    assert p[..|p|] == p;
  }

  lemma {:induction false} DivisionIdentity<E(!new)>(f: Field<E>, p: seq<E>, a: E, x: E)
    requires f.Valid()
    ensures f.Add(Eval(f, p, x), Eval(f, p, a)) == f.Mul(f.Add(x, a), Eval(f, Quotient(f, p, a), x))
  {
    f.Laws(f.Add(x, a), f.zero, f.zero);
    if p == [] {
      f.Laws(f.zero, f.zero, f.zero);
    } else if |p| == 1 {
      f.Laws(x, f.zero, f.zero);
      f.Laws(a, f.zero, f.zero);
      f.Laws(p[0], p[0], f.zero);
    } else {
      var t, q := p[1..], Quotient(f, p[1..], a);
      assert Quotient(f, p, a)[1..] == q;
      DivisionIdentity(f, t, a, x);
      var tx, ta, qx := Eval(f, t, x), Eval(f, t, a), Eval(f, q, x);
      DivisionStep(f, p[0], x, a, tx, ta, qx);
    }
  }

  lemma DivisionStep<E(!new)>(f: Field<E>, c: E, x: E, a: E, tx: E, ta: E, qx: E)
    requires f.Valid()
    requires f.Add(tx, ta) == f.Mul(f.Add(x, a), qx)
    ensures f.Add(f.Add(c, f.Mul(x, tx)), f.Add(c, f.Mul(a, ta))) == f.Mul(f.Add(x, a), f.Add(ta, f.Mul(x, qx)))
  {
    var s := f.Add(x, a);
    calc {
      f.Add(f.Add(c, f.Mul(x, tx)), f.Add(c, f.Mul(a, ta)));
      { f.AddSwap(c, f.Mul(x, tx), c, f.Mul(a, ta)); f.Laws(c, c, c); f.Laws(f.Add(f.Mul(x, tx), f.Mul(a, ta)), c, c); }
      f.Add(f.Mul(x, tx), f.Mul(a, ta));
      { f.AddCancel(tx, ta); f.Laws(s, qx, ta); f.Laws(tx, ta, ta); }
      f.Add(f.Mul(x, f.Add(f.Mul(s, qx), ta)), f.Mul(a, ta));
      { f.Laws(x, f.Mul(s, qx), ta); f.Laws(f.Mul(x, f.Mul(s, qx)), f.Mul(x, ta), f.Mul(a, ta)); f.Laws(ta, x, a); }
      f.Add(f.Mul(x, f.Mul(s, qx)), f.Mul(s, ta));
      { f.Laws(x, s, qx); f.Laws(s, x, qx); f.Laws(s, ta, f.Mul(x, qx)); f.Laws(f.Mul(s, ta), f.Mul(s, f.Mul(x, qx)), c); }
      f.Mul(s, f.Add(ta, f.Mul(x, qx)));
    }
  }

  lemma {:induction false} EvalZero<E(!new)>(f: Field<E>, p: seq<E>, x: E)
    requires f.Valid() && IsZero(f, p)
    ensures Eval(f, p, x) == f.zero
  {
    if p != [] {
      EvalZero(f, p[1..], x);
      f.Laws(x, f.zero, f.zero);
      f.Laws(f.zero, f.zero, f.zero);
    }
  }

  lemma {:induction false} ZeroQuotient<E(!new)>(f: Field<E>, p: seq<E>, a: E)
    requires f.Valid() && IsZero(f, Quotient(f, p, a))
    ensures forall i :: 1 <= i < |p| ==> p[i] == f.zero
  {
    if |p| > 1 {
      var t, q := p[1..], Quotient(f, p, a);
      assert q[1..] == Quotient(f, t, a);
      ZeroQuotient(f, t, a);
      assert q[0] == Eval(f, t, a) == f.zero;
      assert IsZero(f, t[1..]);
      EvalZero(f, t[1..], a);
      f.Laws(t[0], f.zero, f.zero);
      f.Laws(a, f.zero, f.zero);
      assert t[0] == f.zero;
    }
  }

  ghost predicate Injective<T>(s: seq<T>) {
    forall i, j :: 0 <= i < j < |s| ==> s[i] != s[j]
  }

  /** As many distinct roots as coefficients force the zero polynomial. */
  lemma {:induction false} RootBound<E(!new)>(f: Field<E>, p: seq<E>, roots: seq<E>)
    requires f.Valid() && |roots| == |p| && Injective(roots)
    requires forall i :: 0 <= i < |roots| ==> Eval(f, p, roots[i]) == f.zero
    ensures IsZero(f, p)
    decreases |p|
  {
    if p != [] {
      var a := roots[|p| - 1];
      var q, rest := Quotient(f, p, a), roots[..|p| - 1];
      forall i | 0 <= i < |rest| ensures Eval(f, q, rest[i]) == f.zero {
        DivisionIdentity(f, p, a, rest[i]);
        f.Laws(f.zero, f.zero, f.zero);
        f.AddCancel(rest[i], a);
        f.NoZeroDivisors(f.Add(rest[i], a), Eval(f, q, rest[i]));
      }
      RootBound(f, q, rest);
      ZeroQuotient(f, p, a);
      EvalZero(f, p[1..], a);
      f.Laws(p[0], f.zero, f.zero);
      f.Laws(a, f.zero, f.zero);
    }
  }

  // ----- products with linear factors, for the partial-fraction numerator

  /** `(t + a) * p(t)`. */
  function MulLinear<E(!new)>(f: Field<E>, p: seq<E>, a: E): (r: seq<E>)
    ensures |r| == |p| + 1
  {
    AddVec(f, [f.zero] + p, Scale(f, a, p) + [f.zero])
  }

  lemma {:induction false} EvalAdd<E(!new)>(f: Field<E>, p: seq<E>, q: seq<E>, x: E)
    requires f.Valid() && |p| == |q|
    ensures Eval(f, AddVec(f, p, q), x) == f.Add(Eval(f, p, x), Eval(f, q, x))
  {
    if p == [] {
      f.Laws(f.zero, f.zero, f.zero);
    } else {
      assert AddVec(f, p, q)[1..] == AddVec(f, p[1..], q[1..]);
      EvalAdd(f, p[1..], q[1..], x);
      var s, t := Eval(f, p[1..], x), Eval(f, q[1..], x);
      f.Laws(x, s, t);
      f.AddSwap(p[0], q[0], f.Mul(x, s), f.Mul(x, t));
    }
  }

  lemma {:induction false} EvalScale<E(!new)>(f: Field<E>, c: E, p: seq<E>, x: E)
    requires f.Valid()
    ensures Eval(f, Scale(f, c, p), x) == f.Mul(c, Eval(f, p, x))
  {
    if p == [] {
      f.Laws(c, f.zero, f.zero);
    } else {
      assert Scale(f, c, p)[1..] == Scale(f, c, p[1..]);
      EvalScale(f, c, p[1..], x);
      var s := Eval(f, p[1..], x);
      f.Laws(c, p[0], f.Mul(x, s));
      f.Laws(x, c, s);
      f.Laws(c, x, s);
    }
  }

  lemma EvalMulLinear<E(!new)>(f: Field<E>, p: seq<E>, a: E, x: E)
    requires f.Valid()
    ensures Eval(f, MulLinear(f, p, a), x) == f.Mul(f.Add(x, a), Eval(f, p, x))
  {
    EvalAdd(f, [f.zero] + p, Scale(f, a, p) + [f.zero], x);
    assert ([f.zero] + p)[1..] == p;
    var e := Eval(f, p, x);
    f.Laws(f.Mul(x, e), f.zero, f.zero);
    EvalSnoc(f, Scale(f, a, p), f.zero, x);
    EvalScale(f, a, p, x);
    f.Laws(f.Pow(x, |p|), f.zero, f.zero);
    f.Laws(f.Mul(a, e), f.zero, f.zero);
    f.Laws(e, x, a);
  }

  /** The product of the factors `t + ys[l]` for `l < m`. */
  function Factors<E(!new)>(f: Field<E>, ys: seq<E>, m: nat): (r: seq<E>)
    requires m <= |ys|
    ensures |r| == m + 1
  {
    if m == 0 then [f.one] else MulLinear(f, Factors(f, ys, m - 1), ys[m - 1])
  }

  /** The numerator of `sum over l < m of x[l] / (t + ys[l])`. */
  function Numerator<E(!new)>(f: Field<E>, ys: seq<E>, x: seq<E>, m: nat): (r: seq<E>)
    requires m <= |ys| && m <= |x|
    ensures |r| == m
  {
    if m == 0 then []
    else AddVec(f, MulLinear(f, Numerator(f, ys, x, m - 1), ys[m - 1]), Scale(f, x[m - 1], Factors(f, ys, m - 1)))
  }

  lemma NumeratorStep<E(!new)>(f: Field<E>, ys: seq<E>, x: seq<E>, m: nat, t: E)
    requires f.Valid() && 0 < m <= |ys| && m <= |x|
    ensures Eval(f, Factors(f, ys, m), t) == f.Mul(f.Add(t, ys[m - 1]), Eval(f, Factors(f, ys, m - 1), t))
    ensures Eval(f, Numerator(f, ys, x, m), t)
         == f.Add(f.Mul(f.Add(t, ys[m - 1]), Eval(f, Numerator(f, ys, x, m - 1), t)),
                  f.Mul(x[m - 1], Eval(f, Factors(f, ys, m - 1), t)))
  {
    var a, b := MulLinear(f, Numerator(f, ys, x, m - 1), ys[m - 1]), Scale(f, x[m - 1], Factors(f, ys, m - 1));
    EvalAdd(f, a, b, t);
    EvalMulLinear(f, Numerator(f, ys, x, m - 1), ys[m - 1], t);
    EvalMulLinear(f, Factors(f, ys, m - 1), ys[m - 1], t);
    EvalScale(f, x[m - 1], Factors(f, ys, m - 1), t);
  }

  lemma {:induction false} FactorsRoots<E(!new)>(f: Field<E>, ys: seq<E>, m: nat, t: E)
    requires f.Valid() && m <= |ys|
    ensures Eval(f, Factors(f, ys, m), t) == f.zero <==> exists l :: 0 <= l < m && ys[l] == t
  {
    if m == 0 {
      assert Factors(f, ys, m)[1..] == [];
      f.Laws(t, f.zero, f.zero);
      f.Laws(f.one, f.zero, f.zero);
      assert f.one != f.zero;
    } else {
      FactorsRoots(f, ys, m - 1, t);
      EvalMulLinear(f, Factors(f, ys, m - 1), ys[m - 1], t);
      f.NoZeroDivisors(f.Add(t, ys[m - 1]), Eval(f, Factors(f, ys, m - 1), t));
      f.AddCancel(t, ys[m - 1]);
    }
  }

  /** At one of its own poles the numerator vanishes exactly when that residue does. */
  lemma {:induction false} NumeratorAtPole<E(!new)>(f: Field<E>, ys: seq<E>, x: seq<E>, m: nat, i: nat)
    requires f.Valid() && i < m <= |ys| && m <= |x| && Injective(ys)
    ensures Eval(f, Numerator(f, ys, x, m), ys[i]) == f.zero <==> x[i] == f.zero
  {
    var t := ys[i];
    NumeratorStep(f, ys, x, m, t);
    var n, d := Eval(f, Numerator(f, ys, x, m - 1), t), Eval(f, Factors(f, ys, m - 1), t);
    FactorsRoots(f, ys, m - 1, t);
    f.AddCancel(t, ys[m - 1]);
    if i == m - 1 {
      f.Laws(n, f.zero, f.zero);
      f.Laws(f.Mul(x[i], d), f.zero, f.zero);
      f.NoZeroDivisors(x[i], d);
    } else {
      NumeratorAtPole(f, ys, x, m - 1, i);
      f.NoZeroDivisors(f.Add(t, ys[m - 1]), n);
      f.Laws(x[m - 1], f.zero, f.zero);
      f.Laws(f.Mul(f.Add(t, ys[m - 1]), n), f.zero, f.zero);
    }
  }

  /** Away from the poles the numerator is the sum of fractions times the common denominator. */
  lemma {:induction false} NumeratorAway<E(!new)>(f: Field<E>, ys: seq<E>, x: seq<E>, c: seq<E>, m: nat, t: E)
    requires f.Valid() && m <= |ys| && m <= |x| && m <= |c|
    requires forall l :: 0 <= l < m ==> f.Mul(c[l], f.Add(t, ys[l])) == f.one
    ensures Eval(f, Numerator(f, ys, x, m), t) == f.Mul(Eval(f, Factors(f, ys, m), t), DotN(f, c, x, m))
  {
    if m == 0 {
      f.Laws(Eval(f, Factors(f, ys, m), t), f.zero, f.zero);
    } else {
      NumeratorAway(f, ys, x, c, m - 1, t);
      NumeratorStep(f, ys, x, m, t);
      var d, s := Eval(f, Factors(f, ys, m - 1), t), DotN(f, c, x, m - 1);
      FractionStep(f, f.Add(t, ys[m - 1]), d, s, c[m - 1], x[m - 1]);
    }
  }

  lemma FractionStep<E(!new)>(f: Field<E>, g: E, d: E, s: E, c: E, x: E)
    requires f.Valid() && f.Mul(c, g) == f.one
    ensures f.Add(f.Mul(g, f.Mul(d, s)), f.Mul(x, d)) == f.Mul(f.Mul(g, d), f.Add(s, f.Mul(c, x)))
  {
    var gd := f.Mul(g, d);
    calc {
      f.Mul(gd, f.Add(s, f.Mul(c, x)));
      { f.Laws(gd, s, f.Mul(c, x)); }
      f.Add(f.Mul(gd, s), f.Mul(gd, f.Mul(c, x)));
      { f.Laws(gd, c, x); f.Laws(g, d, c); f.Laws(d, c, g); f.Laws(c, d, g); f.Laws(c, g, d); f.Laws(g, c, d); f.Laws(d, f.one, x); }
      f.Add(f.Mul(gd, s), f.Mul(d, x));
      { f.Laws(g, d, s); f.Laws(d, x, s); }
      f.Add(f.Mul(g, f.Mul(d, s)), f.Mul(x, d));
    }
  }
}
