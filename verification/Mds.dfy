/** Maximum distance separable encoding matrices.

    A matrix is MDS when any `k` of its rows determine the data: only the zero vector is
    orthogonal to all of them.  No determinants are needed. */
module Mds {
  import opened Fields
  import opened Vectors
  import opened Polynomials
  import opened Kernels

  /** `k` different row numbers below `n`, in any order. */
  ghost predicate Selection(idx: seq<nat>, n: nat, k: nat) {
    |idx| == k && Injective(idx) && forall i :: 0 <= i < k ==> idx[i] < n
  }

  /** Every selected row is orthogonal to `x`. */
  ghost predicate Kills<E(!new)>(f: Field<E>, g: seq<seq<E>>, idx: seq<nat>, x: seq<E>)
    requires IsMatrix(g, |g|, |x|)
    requires forall i :: 0 <= i < |idx| ==> idx[i] < |g|
  {
    forall i :: 0 <= i < |idx| ==> Dot(f, g[idx[i]], x) == f.zero
  }

  ghost predicate AnyRowsDetermine<E(!new)>(f: Field<E>, g: seq<seq<E>>, k: nat)
    requires IsMatrix(g, |g|, k)
  {
    forall idx: seq<nat>, x: seq<E> ::
      Selection(idx, |g|, k) && |x| == k && Kills(f, g, idx, x) ==> IsZero(f, x)
  }

  /** The MDS codes with `n` shards of which `k` carry data. */
  ghost function MdsCodes<E(!new)>(f: Field<E>, n: nat, k: nat): iset<seq<seq<E>>> {
    iset g: seq<seq<E>> | IsMatrix(g, n, k) && AnyRowsDetermine(f, g, k)
  }

  ghost predicate IsMds<E(!new)>(f: Field<E>, g: seq<seq<E>>, n: nat, k: nat) {
    IsMatrix(g, n, k) && k <= n && g in MdsCodes(f, n, k)
  }

  /** The top rows are the identity, so encoding leaves the data readable. */
  ghost predicate Systematic<E(!new)>(f: Field<E>, g: seq<seq<E>>, k: nat) {
    k <= |g| && forall i :: 0 <= i < k ==> g[i] == Unit(f, k, i)
  }

  // ----- Vandermonde

  /** The top rows of an MDS matrix are not singular, and so neither is the matrix. */
  lemma TopTrivialKernel<E(!new)>(f: Field<E>, m: seq<seq<E>>, n: nat, k: nat)
    requires IsMds(f, m, n, k)
    ensures TrivialKernel(f, m[..k], k) && TrivialKernel(f, m, k)
  {
    var idx := seq(k, t requires 0 <= t < k => t);
    forall x: seq<E> | x in Kernel(f, m[..k], k) ensures IsZero(f, x) {
      assert InKernel(f, m[..k], x);
      forall i | 0 <= i < k ensures Dot(f, m[idx[i]], x) == f.zero {
        assert Dot(f, m[..k][i], x) == f.zero;
      }
      assert Selection(idx, n, k) && Kills(f, m, idx, x);
    }
    forall x: seq<E> | x in Kernel(f, m, k) ensures IsZero(f, x) {
      assert InKernel(f, m, x);
      assert InKernel(f, m[..k], x);
    }
  }

  /** Distinct field elements `pts`, one evaluation row each. */
  function VandermondeRows<E(!new)>(f: Field<E>, n: nat, k: nat): (r: seq<seq<E>>)
    ensures IsMatrix(r, n, k) && forall i :: 0 <= i < n ==> r[i] == Powers(f, f.Nth(i), k)
  {
    seq(n, i requires 0 <= i => Powers(f, f.Nth(i), k))
  }

  /** Entry `(r, c)` is the `c`-th power of the `r`-th field element. */
  lemma VandermondeEntry<E(!new)>(f: Field<E>, n: nat, k: nat, r: nat, c: nat)
    requires r < n && c < k
    ensures VandermondeRows(f, n, k)[r][c] == f.Pow(f.Nth(r), c)
  {
  }

  lemma NthInjective<E(!new)>(f: Field<E>, idx: seq<nat>)
    requires f.Valid() && Injective(idx) && forall i :: 0 <= i < |idx| ==> idx[i] < f.order
    ensures Injective(seq(|idx|, i requires 0 <= i < |idx| => f.Nth(idx[i])))
  {
    forall i, j | 0 <= i < j < |idx| ensures f.Nth(idx[i]) != f.Nth(idx[j]) {
      assert f.NthLaw(idx[i], idx[j]);
    }
  }

  lemma VandermondeMds<E(!new)>(f: Field<E>, n: nat, k: nat)
    requires f.Valid() && k <= n <= f.order
    ensures IsMds(f, VandermondeRows(f, n, k), n, k)
  {
    var v := VandermondeRows(f, n, k);
    forall idx: seq<nat>, x: seq<E> | Selection(idx, n, k) && |x| == k && Kills(f, v, idx, x)
      ensures IsZero(f, x)
    {
      var roots := seq(k, i requires 0 <= i < k => f.Nth(idx[i]));
      NthInjective(f, idx);
      forall i | 0 <= i < k ensures Eval(f, x, roots[i]) == f.zero {
        assert Dot(f, v[idx[i]], x) == f.zero;
        PowersDot(f, roots[i], x);
      }
      RootBound(f, x, roots);
    }
  }

  // ----- Vandermonde extended by the points zero and infinity

  /** The start of the Jerasure-like construction: the first row evaluates at zero and the
      last one reads the leading coefficient. */
  function ExtendedVandermonde<E(!new)>(f: Field<E>, n: nat, k: nat): (r: seq<seq<E>>)
    requires n > k > 0
    ensures IsMatrix(r, n, k)
  {
    VandermondeRows(f, n, k)[0 := Unit(f, k, 0)][n - 1 := Unit(f, k, k - 1)]
  }

  /** Row 0 is the point zero, the last row is infinity, and the rows between are powers of their elements. */
  lemma ExtendedEntry<E(!new)>(f: Field<E>, n: nat, k: nat, r: nat, c: nat)
    requires n > k > 0 && r < n && c < k
    ensures ExtendedVandermonde(f, n, k)[r][c] ==
      if r == n - 1 then (if c == k - 1 then f.one else f.zero)
      else if r == 0 then (if c == 0 then f.one else f.zero)
      else f.Pow(f.Nth(r), c)
  {
  }

  lemma EvalAtZero<E(!new)>(f: Field<E>, p: seq<E>)
    requires f.Valid() && |p| > 0
    ensures Eval(f, p, f.zero) == p[0]
  {
    f.Laws(Eval(f, p[1..], f.zero), f.zero, f.zero);
    f.Laws(p[0], f.zero, f.zero);
  }

  /** The point a row of the extended matrix evaluates at. */
  function Point<E(!new)>(f: Field<E>, r: nat): E {
    if r == 0 then f.zero else f.Nth(r)
  }

  /** None of the interior points repeats the point zero that row 0 stands for. */
  ghost predicate InteriorNonZero<E(!new)>(f: Field<E>, n: nat) {
    forall i: nat :: 1 <= i < n - 1 ==> f.Nth(i) != f.zero
  }

  lemma ExtendedRow<E(!new)>(f: Field<E>, n: nat, k: nat, r: nat, x: seq<E>)
    requires f.Valid() && n > k > 0 && r < n && |x| == k
    ensures r < n - 1 ==> Dot(f, ExtendedVandermonde(f, n, k)[r], x) == Eval(f, x, Point(f, r))
    ensures r == n - 1 ==> Dot(f, ExtendedVandermonde(f, n, k)[r], x) == x[k - 1]
  {
    if r == n - 1 {
      DotUnit(f, x, k - 1);
    } else if r == 0 {
      DotUnit(f, x, 0);
      EvalAtZero(f, x);
    } else {
      PowersDot(f, f.Nth(r), x);
    }
  }

  lemma PointsInjective<E(!new)>(f: Field<E>, n: nat, i: nat, j: nat)
    requires f.Valid() && n <= f.order && InteriorNonZero(f, n)
    requires i < n - 1 && j < n - 1 && i != j
    ensures Point(f, i) != Point(f, j)
  {
    assert f.NthLaw(i, j);
  }

  lemma DropAt<T>(s: seq<T>, at: nat) returns (r: seq<T>)
    requires at < |s| && Injective(s)
    ensures |r| == |s| - 1 && Injective(r)
    ensures forall i :: 0 <= i < |r| ==> r[i] == s[if i < at then i else i + 1]
    ensures forall i :: 0 <= i < |r| ==> r[i] != s[at]
  {
    r := s[..at] + s[at + 1..];
  }

  lemma ExtendedVandermondeMds<E(!new)>(f: Field<E>, n: nat, k: nat)
    requires f.Valid() && 0 < k < n <= f.order && InteriorNonZero(f, n)
    ensures IsMds(f, ExtendedVandermonde(f, n, k), n, k)
  {
    var v := ExtendedVandermonde(f, n, k);
    forall idx: seq<nat>, x: seq<E> | Selection(idx, n, k) && |x| == k && Kills(f, v, idx, x)
      ensures IsZero(f, x)
    {
      forall i | 0 <= i < k ensures if idx[i] == n - 1 then x[k - 1] == f.zero else Eval(f, x, Point(f, idx[i])) == f.zero {
        assert Dot(f, v[idx[i]], x) == f.zero;
        ExtendedRow(f, n, k, idx[i], x);
      }
      if at :| 0 <= at < k && idx[at] == n - 1 {
        InfinitySelected(f, n, k, idx, x, at);
      } else {
        FiniteSelected(f, n, idx, x);
      }
    }
  }

  lemma FiniteSelected<E(!new)>(f: Field<E>, n: nat, idx: seq<nat>, x: seq<E>)
    requires f.Valid() && n <= f.order && InteriorNonZero(f, n)
    requires |idx| == |x| && Injective(idx)
    requires forall i :: 0 <= i < |idx| ==> idx[i] < n - 1 && Eval(f, x, Point(f, idx[i])) == f.zero
    ensures IsZero(f, x)
  {
    var roots := seq(|idx|, i requires 0 <= i < |idx| => Point(f, idx[i]));
    forall i, j | 0 <= i < j < |idx| ensures roots[i] != roots[j] {
      PointsInjective(f, n, idx[i], idx[j]);
    }
    RootBound(f, x, roots);
  }

  /** With the point at infinity selected the polynomial loses a degree and needs one root less. */
  lemma InfinitySelected<E(!new)>(f: Field<E>, n: nat, k: nat, idx: seq<nat>, x: seq<E>, at: nat)
    requires f.Valid() && 0 < k && n <= f.order && InteriorNonZero(f, n)
    requires Selection(idx, n, k) && |x| == k && at < k && idx[at] == n - 1
    requires forall i :: 0 <= i < k && idx[i] != n - 1 ==> Eval(f, x, Point(f, idx[i])) == f.zero
    requires x[k - 1] == f.zero
    ensures IsZero(f, x)
  {
    var rest := DropAt(idx, at);
    var low := x[..k - 1];
    assert x == low + [f.zero];
    forall i | 0 <= i < |rest| ensures rest[i] < n - 1 && Eval(f, low, Point(f, rest[i])) == f.zero {
      var t := Point(f, rest[i]);
      EvalSnoc(f, low, f.zero, t);
      f.Laws(f.Pow(t, k - 1), f.zero, f.zero);
      f.Laws(Eval(f, low, t), f.zero, f.zero);
    }
    FiniteSelected(f, n, rest, low);
  }

  // ----- Cauchy

  function CauchyRow<E(!new)>(f: Field<E>, r: nat, k: nat): (s: seq<E>)
    ensures |s| == k && forall c :: 0 <= c < k ==> s[c] == f.Div(f.one, f.Add(f.Nth(r), f.Nth(c)))
  {
    seq(k, c requires 0 <= c => f.Div(f.one, f.Add(f.Nth(r), f.Nth(c))))
  }

  function CauchyMatrix<E(!new)>(f: Field<E>, n: nat, k: nat): (g: seq<seq<E>>)
    ensures IsMatrix(g, n, k)
    ensures forall r :: 0 <= r < n ==> g[r] == if r < k then Unit(f, k, r) else CauchyRow(f, r, k)
  {
    seq(n, r requires 0 <= r => if r < k then Unit(f, k, r) else CauchyRow(f, r, k))
  }

  /** Identity on top; below, entry `(r, c)` is the reciprocal of the sum of the two points. */
  lemma CauchyEntry<E(!new)>(f: Field<E>, n: nat, k: nat, r: nat, c: nat)
    requires f.Valid() && k <= n <= f.order && r < n && c < k
    ensures r < k ==> CauchyMatrix(f, n, k)[r][c] == if r == c then f.one else f.zero
    ensures r >= k ==> f.Mul(CauchyMatrix(f, n, k)[r][c], f.Add(f.Nth(r), f.Nth(c))) == f.one
  {
    if r >= k {
      f.Distinct(r, c);
      f.InverseNonZero(f.Add(f.Nth(r), f.Nth(c)));
    }
  }

  lemma CauchyMds<E(!new)>(f: Field<E>, n: nat, k: nat)
    requires f.Valid() && k <= n <= f.order
    ensures IsMds(f, CauchyMatrix(f, n, k), n, k)
  {
    var g := CauchyMatrix(f, n, k);
    forall idx: seq<nat>, x: seq<E> | Selection(idx, n, k) && |x| == k && Kills(f, g, idx, x)
      ensures IsZero(f, x)
    {
      CauchyKernel(f, n, k, idx, x);
    }
  }

  /** The numerator of the selected fractions has `k` coefficients and vanishes at all `k`
      selected points, identity rows included; hence it and every residue are zero. */
  lemma CauchyKernel<E(!new)>(f: Field<E>, n: nat, k: nat, idx: seq<nat>, x: seq<E>)
    requires f.Valid() && k <= n <= f.order
    requires Selection(idx, n, k) && |x| == k && Kills(f, CauchyMatrix(f, n, k), idx, x)
    ensures IsZero(f, x)
  {
    var g := CauchyMatrix(f, n, k);
    var ys := seq(k, l requires 0 <= l < k => f.Nth(l));
    forall i, j | 0 <= i < j < k ensures ys[i] != ys[j] {
      assert f.NthLaw(i, j);
    }
    var num := Numerator(f, ys, x, k);
    var roots := seq(k, i requires 0 <= i < k => f.Nth(idx[i]));
    NthInjective(f, idx);
    forall i | 0 <= i < k ensures Eval(f, num, roots[i]) == f.zero {
      assert Dot(f, g[idx[i]], x) == f.zero;
      CauchyRoot(f, ys, idx[i], x);
    }
    RootBound(f, num, roots);
    forall j | 0 <= j < k ensures x[j] == f.zero {
      EvalZero(f, num, ys[j]);
      NumeratorAtPole(f, ys, x, k, j);
    }
  }

  lemma CauchyRoot<E(!new)>(f: Field<E>, ys: seq<E>, r: nat, x: seq<E>)
    requires f.Valid() && r < f.order && |x| == |ys| <= f.order && Injective(ys)
    requires forall l :: 0 <= l < |ys| ==> ys[l] == f.Nth(l)
    requires Dot(f, if r < |ys| then Unit(f, |ys|, r) else CauchyRow(f, r, |ys|), x) == f.zero
    ensures Eval(f, Numerator(f, ys, x, |ys|), f.Nth(r)) == f.zero
  {
    var k := |ys|;
    if r < k {
      DotUnit(f, x, r);
      NumeratorAtPole(f, ys, x, k, r);
    } else {
      var c := CauchyRow(f, r, k);
      forall l | 0 <= l < k ensures f.Mul(c[l], f.Add(f.Nth(r), ys[l])) == f.one {
        f.Distinct(r, l);
        f.InverseNonZero(f.Add(f.Nth(r), ys[l]));
      }
      NumeratorAway(f, ys, x, c, k, f.Nth(r));
      f.Laws(Eval(f, Factors(f, ys, k), f.Nth(r)), f.zero, f.zero);
    }
  }

  // ----- one all-ones parity row

  function OneParityMatrix<E(!new)>(f: Field<E>, k: nat): (g: seq<seq<E>>)
    ensures IsMatrix(g, k + 1, k) && g[k] == Ones(f, k)
    ensures forall r :: 0 <= r < k ==> g[r] == Unit(f, k, r)
  {
    Identity(f, k) + [Ones(f, k)]
  }

  function Ones<E(!new)>(f: Field<E>, n: nat): (r: seq<E>)
    ensures |r| == n && forall i :: 0 <= i < n ==> r[i] == f.one
  {
    seq(n, _ => f.one)
  }

  ghost function UpTo(n: nat): (r: set<nat>)
    ensures |r| == n && forall i: nat :: i in r <==> i < n
  {
    if n == 0 then {} else UpTo(n - 1) + {n - 1}
  }

  ghost function Members(idx: seq<nat>): (r: set<nat>)
    ensures forall i: nat :: i in r <==> i in idx
  {
    set i | i in idx
  }

  lemma {:induction false} InjectiveSize(idx: seq<nat>)
    requires Injective(idx)
    ensures |Members(idx)| == |idx|
  {
    if idx != [] {
      var n := |idx| - 1;
      InjectiveSize(idx[..n]);
      assert idx == idx[..n] + [idx[n]];
      assert Members(idx) == Members(idx[..n]) + {idx[n]};
    }
  }

  /** `k` different numbers up to `k` leave out exactly one. */
  lemma OneLeftOut(idx: seq<nat>, k: nat) returns (out: nat)
    requires Selection(idx, k + 1, k)
    ensures out <= k
    ensures forall r: nat :: r in UpTo(k + 1) && r != out ==> r in idx
  {
    var chosen, all := Members(idx), UpTo(k + 1);
    InjectiveSize(idx);
    assert chosen <= all;
    var rest := all - chosen;
    assert |rest| == 1;
    out :| out in rest;
    assert |rest - {out}| == 0;
    forall r: nat | r in all && r != out ensures r in idx {
      assert r !in rest - {out};
    }
  }

  lemma OneParityMds<E(!new)>(f: Field<E>, k: nat)
    requires f.Valid()
    ensures IsMds(f, OneParityMatrix(f, k), k + 1, k)
  {
    var g := OneParityMatrix(f, k);
    forall idx: seq<nat>, x: seq<E> | Selection(idx, k + 1, k) && |x| == k && Kills(f, g, idx, x)
      ensures IsZero(f, x)
    {
      var out := OneLeftOut(idx, k);
      forall r: nat | r < k && r != out ensures x[r] == f.zero {
        assert r in UpTo(k + 1) && r in idx;
        var i :| 0 <= i < k && idx[i] == r;
        assert Dot(f, g[idx[i]], x) == f.zero;
        DotUnit(f, x, r);
      }
      if out < k {
        assert k in UpTo(k + 1) && k in idx;
        var i :| 0 <= i < k && idx[i] == k;
        assert Dot(f, g[idx[i]], x) == f.zero;
        DotNSingle(f, g[k], x, k, out);
        f.Laws(x[out], x[out], x[out]);
      }
    }
  }
}
