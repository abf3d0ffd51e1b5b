/** The multiplicative group of a finite field: every nonzero element to the power `order - 1` is one. */
module GroupOrder {
  import opened Fields
  import opened Vectors
  import opened Polynomials

  function Product<E(!new)>(f: Field<E>, s: seq<E>): E {
    if s == [] then f.one else f.Mul(Product(f, s[..|s| - 1]), s[|s| - 1])
  }

  /** Any factor can be pulled to the end. */
  lemma {:induction false} ProductPull<E(!new)>(f: Field<E>, s: seq<E>, i: nat)
    requires f.Valid() && i < |s|
    ensures Product(f, s) == f.Mul(Product(f, s[..i] + s[i + 1..]), s[i])
  {
    var n := |s| - 1;
    if i == n {
      assert s[..i] + s[i + 1..] == s[..n];
    } else {
      var init, last := s[..n], s[n];
      ProductPull(f, init, i);
      var rest := init[..i] + init[i + 1..];
      var cut := s[..i] + s[i + 1..];
      assert cut[..|cut| - 1] == rest && cut[|cut| - 1] == last;
      f.Laws(Product(f, rest), s[i], last);
      f.Laws(Product(f, rest), last, s[i]);
      f.Laws(s[i], last, last);
    }
  }

  lemma RestMultiset<E>(t: seq<E>, i: nat)
    requires i < |t|
    ensures multiset(t[..i] + t[i + 1..]) == multiset(t) - multiset{t[i]}
  {
    assert t == t[..i] + [t[i]] + t[i + 1..];
  }

  /** The product does not depend on the order of the factors. */
  lemma {:induction false} ProductPermuted<E(!new)>(f: Field<E>, s: seq<E>, t: seq<E>)
    requires f.Valid() && multiset(s) == multiset(t)
    ensures Product(f, s) == Product(f, t)
    decreases |s|
  {
    assert |s| == |multiset(s)| == |t|;
    if s != [] {
      var n := |s| - 1;
      assert s[n] in multiset(t);
      var i :| 0 <= i < |t| && t[i] == s[n];
      RestMultiset(s, n);
      RestMultiset(t, i);
      assert s[..n] + s[n + 1..] == s[..n];
      ProductPermuted(f, s[..n], t[..i] + t[i + 1..]);
      ProductPull(f, t, i);
    }
  }

  lemma {:induction false} ProductScaled<E(!new)>(f: Field<E>, a: E, s: seq<E>)
    requires f.Valid()
    ensures Product(f, Scale(f, a, s)) == f.Mul(f.Pow(a, |s|), Product(f, s))
  {
    if s == [] {
      f.Laws(f.one, f.one, f.one);
    } else {
      var init, last := s[..|s| - 1], s[|s| - 1];
      ProductScaled(f, a, init);
      assert Scale(f, a, s)[..|s| - 1] == Scale(f, a, init);
      var p, q := f.Pow(a, |s| - 1), Product(f, init);
      f.Laws(p, q, f.Mul(a, last));
      f.Laws(q, a, last);
      f.Laws(a, q, last);
      f.Laws(p, a, f.Mul(q, last));
    }
  }

  lemma {:induction false} ProductNonZero<E(!new)>(f: Field<E>, s: seq<E>)
    requires f.Valid() && forall i :: 0 <= i < |s| ==> s[i] != f.zero
    ensures Product(f, s) != f.zero
  {
    if s != [] {
      ProductNonZero(f, s[..|s| - 1]);
      f.NoZeroDivisors(Product(f, s[..|s| - 1]), s[|s| - 1]);
    }
  }

  // ----- the nonzero elements

  /** The nonzero elements with a number below `n`. */
  ghost function NonZeros<E(!new)>(f: Field<E>, n: nat): (s: seq<E>) {
    if n == 0 then [] else if f.Nth(n - 1) == f.zero then NonZeros(f, n - 1) else NonZeros(f, n - 1) + [f.Nth(n - 1)]
  }

  lemma {:induction false} NonZerosAt<E(!new)>(f: Field<E>, n: nat, i: nat) returns (m: nat)
    requires i < |NonZeros(f, n)|
    ensures m < n && NonZeros(f, n)[i] == f.Nth(m) != f.zero
  {
    if i < |NonZeros(f, n - 1)| {
      m := NonZerosAt(f, n - 1, i);
    } else {
      m := n - 1;
    }
  }

  lemma {:induction false} NonZerosHas<E(!new)>(f: Field<E>, n: nat, m: nat)
    requires m < n && f.Nth(m) != f.zero
    ensures f.Nth(m) in NonZeros(f, n)
  {
    if m < n - 1 {
      NonZerosHas(f, n - 1, m);
    }
  }

  lemma {:induction false} NonZerosInjective<E(!new)>(f: Field<E>, n: nat)
    requires f.Valid() && n <= f.order
    ensures Injective(NonZeros(f, n))
  {
    if n > 0 {
      NonZerosInjective(f, n - 1);
      var rest := NonZeros(f, n - 1);
      forall i | 0 <= i < |rest| ensures rest[i] != f.Nth(n - 1) {
        var m := NonZerosAt(f, n - 1, i);
        assert f.NthLaw(m, n - 1);
      }
    }
  }

  /** All elements but zero. */
  lemma {:induction false} NonZerosCount<E(!new)>(f: Field<E>, n: nat, zeroAt: nat)
    requires f.Valid() && n <= f.order && zeroAt < f.order && f.Nth(zeroAt) == f.zero
    ensures |NonZeros(f, n)| == if zeroAt < n then n - 1 else n
  {
    if n > 0 {
      NonZerosCount(f, n - 1, zeroAt);
      assert f.NthLaw(zeroAt, n - 1);
    }
  }

  /** Multiplying by a nonzero element permutes the nonzero elements. */
  lemma ScalingPermutes<E(!new)>(f: Field<E>, a: E)
    requires f.Valid() && a != f.zero
    ensures multiset(Scale(f, a, NonZeros(f, f.order))) == multiset(NonZeros(f, f.order))
  {
    var s := NonZeros(f, f.order);
    var t := Scale(f, a, s);
    NonZerosInjective(f, f.order);
    forall i, j | 0 <= i < j < |t| ensures t[i] != t[j] {
      f.NoZeroDivisors(a, f.Add(s[i], s[j]));
      f.Laws(a, s[i], s[j]);
      f.AddCancel(t[i], t[j]);
      f.AddCancel(s[i], s[j]);
    }
    forall x: E ensures x in t <==> x in s {
      if x in t {
        var i :| 0 <= i < |t| && t[i] == x;
        var m := NonZerosAt(f, f.order, i);
        f.NoZeroDivisors(a, s[i]);
        Listed(f, x);
      }
      if x in s {
        var i :| 0 <= i < |s| && s[i] == x;
        var m := NonZerosAt(f, f.order, i);
        f.Laws(x, a, a);
        f.Laws(f.Div(x, a), a, a);
        f.NoZeroDivisors(f.Div(x, a), a);
        Listed(f, f.Div(x, a));
        var l :| 0 <= l < |s| && s[l] == f.Div(x, a);
        assert t[l] == x;
      }
    }
    SameMultiset(s, t);
  }

  lemma Listed<E(!new)>(f: Field<E>, x: E)
    requires f.Valid() && x != f.zero
    ensures x in NonZeros(f, f.order)
  {
    assert f.Law(x, x, x);
    var m: nat :| m < f.order && f.Nth(m) == x;
    NonZerosHas(f, f.order, m);
  }

  lemma {:induction false} CountOnce<E>(s: seq<E>, x: E)
    requires Injective(s)
    ensures multiset(s)[x] == if x in s then 1 else 0
  {
    if s != [] {
      var n := |s| - 1;
      CountOnce(s[..n], x);
      assert s == s[..n] + [s[n]];
      assert s[n] !in s[..n];
    }
  }

  lemma SameMultiset<E(!new)>(s: seq<E>, t: seq<E>)
    requires Injective(s) && Injective(t) && forall x: E :: x in t <==> x in s
    ensures multiset(t) == multiset(s)
  {
    forall x: E ensures multiset(t)[x] == multiset(s)[x] {
      CountOnce(s, x);
      CountOnce(t, x);
    }
  }

  /** The period of every nonzero element divides `order - 1`. */
  lemma PowOrder<E(!new)>(f: Field<E>, a: E)
    requires f.Valid() && a != f.zero
    ensures f.order > 1 && f.Pow(a, f.order - 1) == f.one
  {
    assert f.Law(f.zero, f.zero, f.zero);
    var zeroAt: nat :| zeroAt < f.order && f.Nth(zeroAt) == f.zero;
    var s := NonZeros(f, f.order);
    NonZerosCount(f, f.order, zeroAt);
    Listed(f, f.one);
    forall i | 0 <= i < |s| ensures s[i] != f.zero {
      var m := NonZerosAt(f, f.order, i);
    }
    ProductNonZero(f, s);
    ProductScaled(f, a, s);
    ScalingPermutes(f, a);
    ProductPermuted(f, Scale(f, a, s), s);
    // P == a^N P, so (a^N + 1) P == 0
    var p, power := Product(f, s), f.Pow(a, |s|);
    f.Laws(p, power, f.one);
    f.AddCancel(f.Mul(power, p), p);
    f.NoZeroDivisors(f.Add(power, f.one), p);
    f.AddCancel(power, f.one);
  }

  lemma {:induction false} PowPeriods<E(!new)>(f: Field<E>, a: E, period: nat, times: nat)
    requires f.Valid() && f.Pow(a, period) == f.one
    ensures f.Pow(a, times * period) == f.one
  {
    if times > 0 {
      PowPeriods(f, a, period, times - 1);
      assert times * period == (times - 1) * period + period;
      PowDrop(f, a, (times - 1) * period, period);
    }
  }

  /** Exponents of nonzero elements may be reduced modulo `order - 1`. */
  lemma PowReduce<E(!new)>(f: Field<E>, a: E, n: nat)
    requires f.Valid() && a != f.zero
    ensures f.order > 1 && f.Pow(a, n) == f.Pow(a, n % (f.order - 1))
  {
    PowOrder(f, a);
    Divide(n, f.order - 1);
    PowReduceBy(f, a, n, f.order - 1, n / (f.order - 1), n % (f.order - 1));
  }

  lemma PowReduceBy<E(!new)>(f: Field<E>, a: E, n: nat, period: nat, times: nat, rest: nat)
    requires f.Valid() && f.Pow(a, period) == f.one && n == times * period + rest
    ensures f.Pow(a, n) == f.Pow(a, rest)
  {
    hide *;
    PowPeriods(f, a, period, times);
    PowDrop(f, a, times * period, rest);
  }

  /** A part of the exponent that gives one may be dropped. */
  lemma PowDrop<E(!new)>(f: Field<E>, a: E, whole: nat, rest: nat)
    requires f.Valid() && f.Pow(a, whole) == f.one
    ensures f.Pow(a, whole + rest) == f.Pow(a, rest)
  {
    f.PowAdd(a, whole, rest);
    f.Laws(f.Pow(a, rest), f.one, f.one);
  }

  lemma Divide(n: nat, d: nat)
    requires d > 0
    ensures n == (n / d) * d + n % d
  {
  }
}
