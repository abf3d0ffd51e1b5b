/** Kernels of matrices, the row operations that preserve them, and what an elimination
    that reaches the identity says about inverses. */
module Kernels {
  import opened Fields
  import opened Vectors

  ghost predicate InKernel<E(!new)>(f: Field<E>, m: seq<seq<E>>, z: seq<E>)
    requires IsMatrix(m, |m|, |z|)
  {
    forall i :: 0 <= i < |m| ==> Dot(f, m[i], z) == f.zero
  }

  /** The solutions of the homogeneous system `m z == 0`. */
  ghost function Kernel<E(!new)>(f: Field<E>, m: seq<seq<E>>, w: nat): iset<seq<E>>
    requires IsMatrix(m, |m|, w)
  {
    iset z: seq<E> | |z| == w && InKernel(f, m, z)
  }

  /** No nonzero vector is orthogonal to every row: the matrix is not singular. */
  ghost predicate TrivialKernel<E(!new)>(f: Field<E>, m: seq<seq<E>>, w: nat)
    requires IsMatrix(m, |m|, w)
  {
    forall z: seq<E> :: z in Kernel(f, m, w) ==> IsZero(f, z)
  }

  /** The two-sided inverses of `a`; there is at most one. */
  ghost function Inverses<E(!new)>(f: Field<E>, a: seq<seq<E>>, k: nat): iset<seq<seq<E>>>
    requires IsMatrix(a, k, k)
  {
    iset b: seq<seq<E>> | IsMatrix(b, k, k) && MatMul(f, a, b, k) == Identity(f, k) && MatMul(f, b, a, k) == Identity(f, k)
  }

  ghost predicate AreInverse<E(!new)>(f: Field<E>, a: seq<seq<E>>, b: seq<seq<E>>, k: nat) {
    IsMatrix(a, k, k) && b in Inverses(f, a, k)
  }

  // ----- elementary row operations

  function SwapRows<T>(m: seq<T>, a: nat, b: nat): (r: seq<T>)
    requires a < |m| && b < |m|
  {
    m[a := m[b]][b := m[a]]
  }

  function ScaleRow<E(!new)>(f: Field<E>, m: seq<seq<E>>, r: nat, c: E): seq<seq<E>>
    requires r < |m|
  {
    m[r := Scale(f, c, m[r])]
  }

  /** Adds `s` times row `src` to row `dst`. */
  function AddRow<E(!new)>(f: Field<E>, m: seq<seq<E>>, src: nat, dst: nat, s: E): seq<seq<E>>
    requires src < |m| && dst < |m| && |m[src]| == |m[dst]|
  {
    m[dst := AddVec(f, m[dst], Scale(f, s, m[src]))]
  }

  lemma SwapKernel<E(!new)>(f: Field<E>, m: seq<seq<E>>, w: nat, a: nat, b: nat)
    requires a < |m| && b < |m| && IsMatrix(m, |m|, w)
    ensures Kernel(f, m, w) == Kernel(f, SwapRows(m, a, b), w)
  {
    var m' := SwapRows(m, a, b);
    forall z: seq<E> | |z| == w ensures InKernel(f, m, z) <==> InKernel(f, m', z) {
      if InKernel(f, m', z) {
        forall i | 0 <= i < |m| ensures Dot(f, m[i], z) == f.zero {
          assert Dot(f, m'[if i == a then b else if i == b then a else i], z) == f.zero;
        }
      }
    }
  }

  lemma ScaleKernel<E(!new)>(f: Field<E>, m: seq<seq<E>>, w: nat, r: nat, c: E)
    requires f.Valid() && r < |m| && IsMatrix(m, |m|, w) && c != f.zero
    ensures Kernel(f, m, w) == Kernel(f, ScaleRow(f, m, r, c), w)
  {
    var m' := ScaleRow(f, m, r, c);
    forall z: seq<E> | |z| == w ensures InKernel(f, m, z) <==> InKernel(f, m', z) {
      DotNScale(f, c, m[r], z, w);
      f.NoZeroDivisors(c, Dot(f, m[r], z));
      assert Dot(f, m'[r], z) == f.Mul(c, Dot(f, m[r], z));
      assert forall i :: 0 <= i < |m| && i != r ==> m'[i] == m[i];
    }
  }

  lemma AddRowKernel<E(!new)>(f: Field<E>, m: seq<seq<E>>, w: nat, src: nat, dst: nat, s: E)
    requires f.Valid() && src < |m| && dst < |m| && src != dst && IsMatrix(m, |m|, w)
    ensures Kernel(f, m, w) == Kernel(f, AddRow(f, m, src, dst, s), w)
  {
    var m' := AddRow(f, m, src, dst, s);
    forall z: seq<E> | |z| == w ensures InKernel(f, m, z) <==> InKernel(f, m', z) {
      DotNAdd(f, m[dst], Scale(f, s, m[src]), z, w);
      DotNScale(f, s, m[src], z, w);
      f.Laws(s, f.zero, f.zero);
      f.Laws(Dot(f, m[dst], z), f.zero, f.zero);
      assert Dot(f, m'[dst], z) == f.Add(Dot(f, m[dst], z), f.Mul(s, Dot(f, m[src], z)));
      assert forall i :: 0 <= i < |m| && i != dst ==> m'[i] == m[i];
    }
  }

  // ----- an exhausted pivot column makes the matrix singular

  /** The positions `from .. upto` of a row are zero. */
  ghost predicate ZeroRange<E(!new)>(f: Field<E>, row: seq<E>, from: nat, upto: nat) {
    forall j :: from <= j < upto && j < |row| ==> row[j] == f.zero
  }

  /** The first `r` columns have unit pivots and zeros below them. */
  ghost predicate UnitUpper<E(!new)>(f: Field<E>, m: seq<seq<E>>, w: nat, r: nat) {
    && IsMatrix(m, |m|, w) && r <= |m| <= w
    && (forall i :: 0 <= i < r ==> m[i][i] == f.one && ZeroRange(f, m[i], 0, i))
    && (forall i :: r <= i < |m| ==> ZeroRange(f, m[i], 0, r))
  }

  lemma {:induction false} DotNUpdate<E(!new)>(f: Field<E>, u: seq<E>, x: seq<E>, n: nat, at: nat, d: E)
    requires f.Valid() && n <= |u| && n <= |x| && at < |x|
    ensures DotN(f, u, x[at := f.Add(x[at], d)], n)
         == if at < n then f.Add(DotN(f, u, x, n), f.Mul(u[at], d)) else DotN(f, u, x, n)
  {
    if n > 0 {
      DotNUpdate(f, u, x, n - 1, at, d);
      var s, p := DotN(f, u, x, n - 1), f.Mul(u[n - 1], x[n - 1]);
      if at == n - 1 {
        f.Laws(u[at], x[at], d);
        f.Laws(s, p, f.Mul(u[at], d));
      } else if at < n - 1 {
        var q := f.Mul(u[at], d);
        f.Laws(s, q, p);
        f.Laws(s, p, q);
        f.Laws(q, p, s);
      }
    }
  }

  /** Back substitution: a vector with a one at `r`, orthogonal to rows `i..r`. */
  lemma {:induction false} BackSubstitute<E(!new)>(f: Field<E>, m: seq<seq<E>>, w: nat, r: nat, i: nat) returns (z: seq<E>)
    requires f.Valid() && UnitUpper(f, m, w, r) && i <= r < |m|
    ensures |z| == w && z[r] == f.one
    ensures forall j :: 0 <= j < w && (j < i || j > r) ==> z[j] == f.zero
    ensures forall t :: i <= t < r ==> Dot(f, m[t], z) == f.zero
    decreases r - i
  {
    if i == r {
      z := Unit(f, w, r);
    } else {
      var y := BackSubstitute(f, m, w, r, i + 1);
      var d := Dot(f, m[i], y);
      f.Laws(d, f.zero, f.zero);
      z := y[i := f.Add(y[i], d)];
      DotNUpdate(f, m[i], y, w, i, d);
      forall t | i <= t < r ensures Dot(f, m[t], z) == f.zero {
        if t > i {
          DotNUpdate(f, m[t], y, w, i, d);
          f.Laws(d, f.zero, f.zero);
          f.Laws(f.zero, f.zero, f.zero);
        } else {
          f.Laws(d, d, d);
        }
      }
    }
  }

  lemma SingularColumn<E(!new)>(f: Field<E>, m: seq<seq<E>>, w: nat, r: nat) returns (z: seq<E>)
    requires f.Valid() && UnitUpper(f, m, w, r) && r < |m|
    requires forall i :: r <= i < |m| ==> m[i][r] == f.zero
    ensures |z| == w && !IsZero(f, z) && InKernel(f, m, z)
    ensures forall j :: |m| <= j < w ==> z[j] == f.zero
  {
    z := BackSubstitute(f, m, w, r, 0);
    assert z[r] != f.zero;
    forall i | 0 <= i < |m| ensures Dot(f, m[i], z) == f.zero {
      if i >= r {
        DotNZero(f, m[i], z, w);
      }
    }
  }

  // ----- augmented matrices

  function Augment<E>(m: seq<seq<E>>, n: seq<seq<E>>): (r: seq<seq<E>>)
    requires |m| == |n|
    ensures |r| == |m| && forall i {:trigger r[i]} :: 0 <= i < |m| ==> r[i] == m[i] + n[i]
  {
    seq(|m|, i requires 0 <= i < |m| => m[i] + n[i])
  }

  lemma {:induction false} DotNConcat<E(!new)>(f: Field<E>, u: seq<E>, v: seq<E>, x: seq<E>, y: seq<E>, n: nat)
    requires f.Valid() && |u| == |x| && n <= |v| && n <= |y|
    ensures DotN(f, u + v, x + y, |u| + n) == f.Add(Dot(f, u, x), DotN(f, v, y, n))
  {
    if n == 0 {
      DotNAgree(f, u + v, x + y, u, x, |u|);
      f.Laws(Dot(f, u, x), f.zero, f.zero);
    } else {
      DotNConcat(f, u, v, x, y, n - 1);
      f.Laws(Dot(f, u, x), DotN(f, v, y, n - 1), f.Mul(v[n - 1], y[n - 1]));
    }
  }

  /** `(x, y)` is in the kernel of `[a | r]` exactly when `a x == r y`. */
  lemma AugmentKernel<E(!new)>(f: Field<E>, a: seq<seq<E>>, r: seq<seq<E>>, x: seq<E>, y: seq<E>)
    requires f.Valid() && |a| == |r| && IsMatrix(a, |a|, |x|) && IsMatrix(r, |r|, |y|)
    ensures IsMatrix(Augment(a, r), |a|, |x| + |y|)
    ensures x + y in Kernel(f, Augment(a, r), |x| + |y|) <==> Apply(f, a, x) == Apply(f, r, y)
  {
    var g := Augment(a, r);
    forall i | 0 <= i < |a| ensures Dot(f, g[i], x + y) == f.zero <==> Dot(f, a[i], x) == Dot(f, r[i], y) {
      DotNConcat(f, a[i], r[i], x, y, |y|);
      f.AddCancel(Dot(f, a[i], x), Dot(f, r[i], y));
    }
    if Apply(f, a, x) == Apply(f, r, y) {
      forall i | 0 <= i < |a| ensures Dot(f, a[i], x) == Dot(f, r[i], y) {
        assert Apply(f, a, x)[i] == Apply(f, r, y)[i];
      }
    }
  }

  lemma ApplyIdentity<E(!new)>(f: Field<E>, x: seq<E>)
    requires f.Valid()
    ensures Apply(f, Identity(f, |x|), x) == x
  {
    forall i | 0 <= i < |x| ensures Apply(f, Identity(f, |x|), x)[i] == x[i] {
      DotUnit(f, x, i);
    }
  }

  lemma ApplyUnit<E(!new)>(f: Field<E>, m: seq<seq<E>>, w: nat, j: nat)
    requires f.Valid() && IsMatrix(m, |m|, w) && j < w
    ensures Apply(f, m, Unit(f, w, j)) == Col(m, j)
  {
    forall i | 0 <= i < |m| ensures Apply(f, m, Unit(f, w, j))[i] == m[i][j] {
      DotUnit(f, m[i], j);
    }
  }

  lemma ApplyMatMul<E(!new)>(f: Field<E>, a: seq<seq<E>>, b: seq<seq<E>>, x: seq<E>)
    requires f.Valid() && IsMatrix(b, |b|, |x|) && IsMatrix(a, |a|, |b|)
    ensures Apply(f, MatMul(f, a, b, |x|), x) == Apply(f, a, Apply(f, b, x))
  {
    forall i | 0 <= i < |a| ensures Dot(f, MatMul(f, a, b, |x|)[i], x) == Dot(f, a[i], Apply(f, b, x)) {
      CombDot(f, a[i], b, x);
    }
  }

  /** Eliminating `[a | r]` to `[I | c]` solves `a c == r`. */
  lemma EliminationSolves<E(!new)>(f: Field<E>, a: seq<seq<E>>, r: seq<seq<E>>, c: seq<seq<E>>, k: nat, w: nat)
    requires f.Valid() && IsMatrix(a, k, k) && IsMatrix(r, k, w) && IsMatrix(c, k, w)
    requires Kernel(f, Augment(a, r), k + w) == Kernel(f, Augment(Identity(f, k), c), k + w)
    ensures MatMul(f, a, c, w) == r
  {
    forall i, j | 0 <= i < k && 0 <= j < w ensures MatMul(f, a, c, w)[i][j] == r[i][j] {
      var e := Unit(f, w, j);
      var x := Apply(f, c, e);
      AugmentKernel(f, Identity(f, k), c, x, e);
      ApplyIdentity(f, x);
      AugmentKernel(f, a, r, x, e);
      ApplyUnit(f, c, w, j);
      ApplyUnit(f, r, w, j);
      CombAt(f, a[i], c, w, j);
      assert Apply(f, a, x)[i] == Apply(f, r, e)[i];
    }
    forall i | 0 <= i < k ensures MatMul(f, a, c, w)[i] == r[i] {
      assert forall j :: 0 <= j < w ==> MatMul(f, a, c, w)[i][j] == r[i][j];
    }
  }

  lemma EliminationLeft<E(!new)>(f: Field<E>, a: seq<seq<E>>, b: seq<seq<E>>, k: nat, x: seq<E>)
    requires f.Valid() && IsMatrix(a, k, k) && IsMatrix(b, k, k) && |x| == k
    requires Kernel(f, Augment(a, Identity(f, k)), k + k) == Kernel(f, Augment(Identity(f, k), b), k + k)
    ensures Apply(f, b, Apply(f, a, x)) == x
  {
    var y := Apply(f, a, x);
    assert x + y in Kernel(f, Augment(a, Identity(f, k)), k + k) by {
      AugmentKernel(f, a, Identity(f, k), x, y);
      ApplyIdentity(f, y);
    }
    AugmentKernel(f, Identity(f, k), b, x, y);
    ApplyIdentity(f, x);
  }

  /** A matrix that fixes every vector is the identity. */
  lemma FixesEverything<E(!new)>(f: Field<E>, m: seq<seq<E>>, k: nat)
    requires f.Valid() && IsMatrix(m, k, k)
    requires forall x: seq<E> :: |x| == k ==> Apply(f, m, x) == x
    ensures m == Identity(f, k)
  {
    forall i | 0 <= i < k ensures m[i] == Unit(f, k, i) {
      forall j | 0 <= j < k ensures m[i][j] == Unit(f, k, i)[j] {
        var e := Unit(f, k, j);
        assert Apply(f, m, e) == e;
        ApplyUnit(f, m, k, j);
        assert Col(m, j)[i] == m[i][j];
      }
    }
  }

  /** Eliminating `[a | I]` to `[I | b]` yields a two-sided inverse. */
  lemma EliminationInverts<E(!new)>(f: Field<E>, a: seq<seq<E>>, b: seq<seq<E>>, k: nat)
    requires f.Valid() && IsMatrix(a, k, k) && IsMatrix(b, k, k)
    requires Kernel(f, Augment(a, Identity(f, k)), k + k) == Kernel(f, Augment(Identity(f, k), b), k + k)
    ensures AreInverse(f, a, b, k)
  {
    EliminationSolves(f, a, Identity(f, k), b, k, k);
    forall x: seq<E> | |x| == k ensures Apply(f, MatMul(f, b, a, k), x) == x {
      EliminationLeft(f, a, b, k, x);
      ApplyMatMul(f, b, a, x);
    }
    FixesEverything(f, MatMul(f, b, a, k), k);
  }

  lemma InverseApply<E(!new)>(f: Field<E>, a: seq<seq<E>>, b: seq<seq<E>>, x: seq<E>)
    requires f.Valid() && AreInverse(f, a, b, |x|)
    ensures Apply(f, a, Apply(f, b, x)) == x
    ensures Apply(f, b, Apply(f, a, x)) == x
  {
    ApplyMatMul(f, a, b, x);
    ApplyMatMul(f, b, a, x);
    ApplyIdentity(f, x);
  }

  /** An invertible matrix is not singular. */
  lemma InverseTrivialKernel<E(!new)>(f: Field<E>, a: seq<seq<E>>, b: seq<seq<E>>, k: nat)
    requires f.Valid() && AreInverse(f, a, b, k)
    ensures TrivialKernel(f, a, k)
  {
    forall z: seq<E> | z in Kernel(f, a, k) ensures IsZero(f, z) {
      InverseApply(f, a, b, z);
      var y := Apply(f, a, z);
      forall i | 0 <= i < k ensures z[i] == f.zero {
        DotNZero(f, b[i], y, k);
        assert Apply(f, b, y)[i] == Dot(f, b[i], y);
      }
    }
  }

  lemma {:induction false} MatMulIdentity<E(!new)>(f: Field<E>, d: seq<seq<E>>, w: nat)
    requires f.Valid() && IsMatrix(d, |d|, w)
    ensures MatMul(f, Identity(f, |d|), d, w) == d
  {
    forall i | 0 <= i < |d| ensures MatMul(f, Identity(f, |d|), d, w)[i] == d[i] {
      CombUnit(f, d, w, i);
    }
  }

  lemma MatMulAssoc<E(!new)>(f: Field<E>, a: seq<seq<E>>, b: seq<seq<E>>, c: seq<seq<E>>, w: nat)
    requires f.Valid() && IsMatrix(c, |c|, w) && IsMatrix(b, |b|, |c|) && IsMatrix(a, |a|, |b|)
    ensures MatMul(f, a, MatMul(f, b, c, w), w) == MatMul(f, MatMul(f, a, b, |c|), c, w)
  {
    forall i | 0 <= i < |a| ensures MatMul(f, a, MatMul(f, b, c, w), w)[i] == MatMul(f, MatMul(f, a, b, |c|), c, w)[i] {
      CombAssoc(f, a[i], b, c, w);
    }
  }

  /** `a c == r` has the unique solution `c == b r`. */
  lemma InverseSolves<E(!new)>(f: Field<E>, a: seq<seq<E>>, b: seq<seq<E>>, c: seq<seq<E>>, k: nat, w: nat)
    requires f.Valid() && AreInverse(f, a, b, k) && IsMatrix(c, k, w)
    ensures MatMul(f, b, MatMul(f, a, c, w), w) == c
  {
    MatMulAssoc(f, b, a, c, w);
    MatMulIdentity(f, c, w);
  }

  lemma InverseUnique<E(!new)>(f: Field<E>, a: seq<seq<E>>, b: seq<seq<E>>, c: seq<seq<E>>, k: nat)
    requires f.Valid() && AreInverse(f, a, b, k) && AreInverse(f, a, c, k)
    ensures b == c
  {
    InverseSolves(f, a, b, c, k, k);
    InverseSolves(f, a, b, b, k, k);
  }

  /** A matrix that is not singular tells different data apart. */
  lemma KernelDetermines<E(!new)>(f: Field<E>, s: seq<seq<E>>, d: seq<seq<E>>, e: seq<seq<E>>, k: nat, len: nat)
    requires f.Valid() && IsMatrix(s, k, k) && TrivialKernel(f, s, k) && IsMatrix(d, k, len) && IsMatrix(e, k, len)
    requires forall i :: 0 <= i < k ==> Comb(f, s[i], d, len) == Comb(f, s[i], e, len)
    ensures d == e
  {
    forall i | 0 <= i < k ensures d[i] == e[i] {
      forall j | 0 <= j < len ensures d[i][j] == e[i][j] {
        var x := AddVec(f, Col(d, j), Col(e, j));
        forall r | 0 <= r < k ensures Dot(f, s[r], x) == f.zero {
          CombAt(f, s[r], d, len, j);
          CombAt(f, s[r], e, len, j);
          DotNComm(f, s[r], x, k);
          DotNAdd(f, Col(d, j), Col(e, j), s[r], k);
          DotNComm(f, s[r], Col(d, j), k);
          DotNComm(f, s[r], Col(e, j), k);
          f.AddCancel(Dot(f, s[r], Col(d, j)), Dot(f, s[r], Col(e, j)));
        }
        assert x in Kernel(f, s, k);
        assert x[i] == f.zero;
        f.AddCancel(d[i][j], e[i][j]);
      }
    }
  }
}
