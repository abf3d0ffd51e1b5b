/** Vectors and matrices over a field, as sequences.

    A shard is a vector, a coefficient row is a vector, and a matrix is a sequence of
    equally long rows.  `Comb(c, M)` is the linear combination of the rows of `M` with
    coefficients `c`: encoding, decoding and matrix products are all instances of it. */
module Vectors {
  import opened Fields

  ghost predicate IsMatrix<E>(m: seq<seq<E>>, rows: nat, cols: nat) {
    |m| == rows && forall i :: 0 <= i < rows ==> |m[i]| == cols
  }

  function Zeros<E(!new)>(f: Field<E>, n: nat): (r: seq<E>)
    ensures |r| == n && forall i :: 0 <= i < n ==> r[i] == f.zero
  {
    seq(n, _ => f.zero)
  }

  /** The unit vector with a one at position `at`. */
  function Unit<E(!new)>(f: Field<E>, n: nat, at: nat): (r: seq<E>)
    ensures |r| == n && forall i :: 0 <= i < n ==> r[i] == if i == at then f.one else f.zero
  {
    seq(n, i => if i == at then f.one else f.zero)
  }

  function Identity<E(!new)>(f: Field<E>, n: nat): (r: seq<seq<E>>)
    ensures IsMatrix(r, n, n) && forall i {:trigger r[i]} :: 0 <= i < n ==> r[i] == Unit(f, n, i)
  {
    seq(n, i requires 0 <= i => Unit(f, n, i))
  }

  function AddVec<E(!new)>(f: Field<E>, u: seq<E>, v: seq<E>): (r: seq<E>)
    requires |u| == |v|
    ensures |r| == |u| && forall i {:trigger r[i]} :: 0 <= i < |u| ==> r[i] == f.Add(u[i], v[i])
  {
    seq(|u|, i requires 0 <= i < |u| => f.Add(u[i], v[i]))
  }

  function Scale<E(!new)>(f: Field<E>, c: E, v: seq<E>): (r: seq<E>)
    ensures |r| == |v| && forall i {:trigger r[i]} :: 0 <= i < |v| ==> r[i] == f.Mul(c, v[i])
  {
    seq(|v|, i requires 0 <= i < |v| => f.Mul(c, v[i]))
  }

  /** The sum of the first `n` products, accumulated in index order. */
  function DotN<E(!new)>(f: Field<E>, u: seq<E>, v: seq<E>, n: nat): E
    requires n <= |u| && n <= |v|
  {
    if n == 0 then f.zero else f.Add(DotN(f, u, v, n - 1), f.Mul(u[n - 1], v[n - 1]))
  }

  function Dot<E(!new)>(f: Field<E>, u: seq<E>, v: seq<E>): E
    requires |u| == |v|
  {
    DotN(f, u, v, |u|)
  }

  /** The combination of the first `n` rows of `m`; `w` is the row width. */
  function CombN<E(!new)>(f: Field<E>, c: seq<E>, m: seq<seq<E>>, w: nat, n: nat): (r: seq<E>)
    requires n <= |c| && n <= |m|
    requires forall i :: 0 <= i < n ==> |m[i]| == w
    ensures |r| == w
  {
    if n == 0 then Zeros(f, w) else AddVec(f, CombN(f, c, m, w, n - 1), Scale(f, c[n - 1], m[n - 1]))
  }

  function Comb<E(!new)>(f: Field<E>, c: seq<E>, m: seq<seq<E>>, w: nat): (r: seq<E>)
    requires IsMatrix(m, |c|, w)
    ensures |r| == w
  {
    CombN(f, c, m, w, |c|)
  }

  function Col<E>(m: seq<seq<E>>, j: nat): (r: seq<E>)
    requires forall i :: 0 <= i < |m| ==> j < |m[i]|
    ensures |r| == |m| && forall i {:trigger r[i]} :: 0 <= i < |m| ==> r[i] == m[i][j]
  {
    seq(|m|, i requires 0 <= i < |m| => m[i][j])
  }

  /** Every row of the product `a * b`. */
  function MatMul<E(!new)>(f: Field<E>, a: seq<seq<E>>, b: seq<seq<E>>, w: nat): (r: seq<seq<E>>)
    requires IsMatrix(b, |b|, w)
    requires IsMatrix(a, |a|, |b|)
    ensures IsMatrix(r, |a|, w)
    ensures forall i {:trigger r[i]} :: 0 <= i < |a| ==> r[i] == Comb(f, a[i], b, w)
  {
    seq(|a|, i requires 0 <= i < |a| => Comb(f, a[i], b, w))
  }

  /** The matrix applied to a column vector. */
  function Apply<E(!new)>(f: Field<E>, m: seq<seq<E>>, x: seq<E>): (r: seq<E>)
    requires IsMatrix(m, |m|, |x|)
    ensures |r| == |m| && forall i {:trigger r[i]} :: 0 <= i < |m| ==> r[i] == Dot(f, m[i], x)
  {
    seq(|m|, i requires 0 <= i < |m| => Dot(f, m[i], x))
  }

  ghost predicate IsZero<E(!new)>(f: Field<E>, v: seq<E>) {
    forall i :: 0 <= i < |v| ==> v[i] == f.zero
  }

  // ----- the inner product is bilinear and symmetric

  lemma {:induction false} DotNComm<E(!new)>(f: Field<E>, u: seq<E>, v: seq<E>, n: nat)
    requires f.Valid() && n <= |u| && n <= |v|
    ensures DotN(f, u, v, n) == DotN(f, v, u, n)
  {
    if n > 0 {
      DotNComm(f, u, v, n - 1);
      f.Laws(u[n - 1], v[n - 1], f.zero);
    }
  }

  lemma {:induction false} DotNAdd<E(!new)>(f: Field<E>, u: seq<E>, v: seq<E>, x: seq<E>, n: nat)
    requires f.Valid() && |u| == |v| && n <= |u| && n <= |x|
    ensures DotN(f, AddVec(f, u, v), x, n) == f.Add(DotN(f, u, x, n), DotN(f, v, x, n))
  {
    if n == 0 {
      f.Laws(f.zero, f.zero, f.zero);
    } else {
      DotNAdd(f, u, v, x, n - 1);
      f.Laws(x[n - 1], u[n - 1], v[n - 1]);
      f.AddSwap(DotN(f, u, x, n - 1), DotN(f, v, x, n - 1), f.Mul(u[n - 1], x[n - 1]), f.Mul(v[n - 1], x[n - 1]));
    }
  }

  lemma {:induction false} DotNScale<E(!new)>(f: Field<E>, c: E, u: seq<E>, x: seq<E>, n: nat)
    requires f.Valid() && n <= |u| && n <= |x|
    ensures DotN(f, Scale(f, c, u), x, n) == f.Mul(c, DotN(f, u, x, n))
  {
    if n == 0 {
      f.Laws(c, f.zero, f.zero);
    } else {
      DotNScale(f, c, u, x, n - 1);
      f.Laws(c, u[n - 1], x[n - 1]);
      f.Laws(c, DotN(f, u, x, n - 1), f.Mul(u[n - 1], x[n - 1]));
    }
  }

  lemma {:induction false} DotNZero<E(!new)>(f: Field<E>, u: seq<E>, x: seq<E>, n: nat)
    requires f.Valid() && n <= |u| && n <= |x|
    requires forall i :: 0 <= i < n ==> u[i] == f.zero || x[i] == f.zero
    ensures DotN(f, u, x, n) == f.zero
  {
    f.Laws(f.zero, f.zero, f.zero);
    if n > 0 {
      DotNZero(f, u, x, n - 1);
      f.Laws(u[n - 1], x[n - 1], f.zero);
      f.Laws(x[n - 1], x[n - 1], f.zero);
    }
  }

  /** If at most position `at` contributes, the sum is that product. */
  lemma {:induction false} DotNSingle<E(!new)>(f: Field<E>, u: seq<E>, x: seq<E>, n: nat, at: nat)
    requires f.Valid() && n <= |u| && n <= |x| && at < n
    requires forall i :: 0 <= i < n && i != at ==> u[i] == f.zero || x[i] == f.zero
    ensures DotN(f, u, x, n) == f.Mul(u[at], x[at])
  {
    f.Laws(f.Mul(u[at], x[at]), f.zero, f.zero);
    if n - 1 == at {
      DotNZero(f, u, x, n - 1);
    } else {
      DotNSingle(f, u, x, n - 1, at);
      f.Laws(u[n - 1], x[n - 1], f.zero);
      f.Laws(x[n - 1], x[n - 1], f.zero);
    }
  }

  lemma DotUnit<E(!new)>(f: Field<E>, x: seq<E>, at: nat)
    requires f.Valid() && at < |x|
    ensures Dot(f, Unit(f, |x|, at), x) == x[at]
    ensures Dot(f, x, Unit(f, |x|, at)) == x[at]
  {
    DotNSingle(f, Unit(f, |x|, at), x, |x|, at);
    DotNComm(f, x, Unit(f, |x|, at), |x|);
    f.Laws(x[at], x[at], x[at]);
  }

  lemma {:induction false} DotNAgree<E(!new)>(f: Field<E>, u: seq<E>, x: seq<E>, u': seq<E>, x': seq<E>, n: nat)
    requires n <= |u| && n <= |x| && n <= |u'| && n <= |x'|
    requires forall i :: 0 <= i < n ==> u[i] == u'[i] && x[i] == x'[i]
    ensures DotN(f, u, x, n) == DotN(f, u', x', n)
  {
    if n > 0 {
      DotNAgree(f, u, x, u', x', n - 1);
    }
  }

  // ----- combinations of rows

  lemma CombNEmpty<E(!new)>(f: Field<E>, c: seq<E>, m: seq<seq<E>>, w: nat)
    requires IsMatrix(m, |c|, w)
    ensures CombN(f, c, m, w, 0) == Zeros(f, w)
  {
  }

  /** Column `j` of a combination is the inner product with column `j`. */
  lemma {:induction false} CombNAt<E(!new)>(f: Field<E>, c: seq<E>, m: seq<seq<E>>, w: nat, n: nat, j: nat)
    requires f.Valid() && n <= |c| && IsMatrix(m, |m|, w) && n <= |m| && j < w
    ensures CombN(f, c, m, w, n)[j] == DotN(f, c, Col(m, j), n)
  {
    if n > 0 {
      CombNAt(f, c, m, w, n - 1, j);
    }
  }

  lemma {:induction false} CombNAdd<E(!new)>(f: Field<E>, c: seq<E>, d: seq<E>, m: seq<seq<E>>, w: nat, n: nat)
    requires f.Valid() && |c| == |d| && n <= |c| && n <= |m|
    requires forall i :: 0 <= i < n ==> |m[i]| == w
    ensures CombN(f, AddVec(f, c, d), m, w, n) == AddVec(f, CombN(f, c, m, w, n), CombN(f, d, m, w, n))
  {
    var l, a, b := CombN(f, AddVec(f, c, d), m, w, n), CombN(f, c, m, w, n), CombN(f, d, m, w, n);
    if n == 0 {
      f.Laws(f.zero, f.zero, f.zero);
    } else {
      CombNAdd(f, c, d, m, w, n - 1);
      forall j | 0 <= j < w ensures l[j] == f.Add(a[j], b[j]) {
        var a', b' := CombN(f, c, m, w, n - 1)[j], CombN(f, d, m, w, n - 1)[j];
        f.Laws(m[n - 1][j], c[n - 1], d[n - 1]);
        f.AddSwap(a', b', f.Mul(c[n - 1], m[n - 1][j]), f.Mul(d[n - 1], m[n - 1][j]));
      }
    }
  }

  lemma {:induction false} CombNScale<E(!new)>(f: Field<E>, s: E, c: seq<E>, m: seq<seq<E>>, w: nat, n: nat)
    requires f.Valid() && n <= |c| && n <= |m|
    requires forall i :: 0 <= i < n ==> |m[i]| == w
    ensures CombN(f, Scale(f, s, c), m, w, n) == Scale(f, s, CombN(f, c, m, w, n))
  {
    var l, a := CombN(f, Scale(f, s, c), m, w, n), CombN(f, c, m, w, n);
    if n == 0 {
      f.Laws(s, f.zero, f.zero);
    } else {
      CombNScale(f, s, c, m, w, n - 1);
      forall j | 0 <= j < w ensures l[j] == f.Mul(s, a[j]) {
        f.Laws(s, c[n - 1], m[n - 1][j]);
        f.Laws(s, CombN(f, c, m, w, n - 1)[j], f.Mul(c[n - 1], m[n - 1][j]));
      }
    }
  }

  lemma {:induction false} CombNZero<E(!new)>(f: Field<E>, c: seq<E>, m: seq<seq<E>>, w: nat, n: nat)
    requires f.Valid() && n <= |c| && n <= |m|
    requires forall i :: 0 <= i < n ==> |m[i]| == w
    requires forall i :: 0 <= i < n ==> c[i] == f.zero
    ensures CombN(f, c, m, w, n) == Zeros(f, w)
  {
    if n > 0 {
      CombNZero(f, c, m, w, n - 1);
      forall j | 0 <= j < w ensures CombN(f, c, m, w, n)[j] == f.zero {
        f.Laws(m[n - 1][j], f.zero, f.zero);
        f.Laws(f.zero, f.zero, f.zero);
      }
    }
  }

  lemma {:induction false} CombNUnit<E(!new)>(f: Field<E>, m: seq<seq<E>>, w: nat, n: nat, k: nat, at: nat)
    requires f.Valid() && at < n <= k && n <= |m|
    requires forall i :: 0 <= i < n ==> |m[i]| == w
    ensures CombN(f, Unit(f, k, at), m, w, n) == m[at]
  {
    var c := Unit(f, k, at);
    if n - 1 == at {
      CombNZero(f, c, m, w, n - 1);
    } else {
      CombNUnit(f, m, w, n - 1, k, at);
    }
    forall j | 0 <= j < w ensures CombN(f, c, m, w, n)[j] == m[at][j] {
      f.Laws(m[n - 1][j], f.zero, f.zero);
      f.Laws(m[at][j], f.zero, f.zero);
    }
  }

  lemma CombUnit<E(!new)>(f: Field<E>, m: seq<seq<E>>, w: nat, at: nat)
    requires f.Valid() && at < |m| && IsMatrix(m, |m|, w)
    ensures Comb(f, Unit(f, |m|, at), m, w) == m[at]
  {
    CombNUnit(f, m, w, |m|, |m|, at);
  }

  lemma {:induction false} CombNAgree<E(!new)>(f: Field<E>, c: seq<E>, m: seq<seq<E>>, c': seq<E>, m': seq<seq<E>>, w: nat, n: nat)
    requires n <= |c| && n <= |m| && n <= |c'| && n <= |m'|
    requires forall i :: 0 <= i < n ==> |m[i]| == w && m[i] == m'[i] && c[i] == c'[i]
    ensures CombN(f, c, m, w, n) == CombN(f, c', m', w, n)
  {
    if n > 0 {
      CombNAgree(f, c, m, c', m', w, n - 1);
    }
  }

  /** Combining combinations: `b * (a * d) == (b * a) * d`. */
  lemma {:induction false} CombNAssoc<E(!new)>(f: Field<E>, b: seq<E>, a: seq<seq<E>>, d: seq<seq<E>>, w: nat, n: nat)
    requires f.Valid() && n <= |b| && n <= |a| && IsMatrix(d, |d|, w) && IsMatrix(a, |a|, |d|)
    ensures CombN(f, b, MatMul(f, a, d, w), w, n) == Comb(f, CombN(f, b, a, |d|, n), d, w)
  {
    if n == 0 {
      CombNZero(f, Zeros(f, |d|), d, w, |d|);
    } else {
      CombNAssoc(f, b, a, d, w, n - 1);
      CombNAdd(f, CombN(f, b, a, |d|, n - 1), Scale(f, b[n - 1], a[n - 1]), d, w, |d|);
      CombNScale(f, b[n - 1], a[n - 1], d, w, |d|);
    }
  }

  lemma CombAssoc<E(!new)>(f: Field<E>, b: seq<E>, a: seq<seq<E>>, d: seq<seq<E>>, w: nat)
    requires f.Valid() && IsMatrix(d, |d|, w) && IsMatrix(a, |b|, |d|)
    ensures Comb(f, b, MatMul(f, a, d, w), w) == Comb(f, Comb(f, b, a, |d|), d, w)
  {
    CombNAssoc(f, b, a, d, w, |b|);
  }

  /** `(c * m) x == c (m x)`. */
  lemma {:induction false} CombDotN<E(!new)>(f: Field<E>, c: seq<E>, m: seq<seq<E>>, x: seq<E>, n: nat)
    requires f.Valid() && n <= |c| && n <= |m| && IsMatrix(m, |m|, |x|)
    ensures Dot(f, CombN(f, c, m, |x|, n), x) == DotN(f, c, Apply(f, m, x), n)
  {
    if n == 0 {
      DotNZero(f, Zeros(f, |x|), x, |x|);
    } else {
      CombDotN(f, c, m, x, n - 1);
      DotNAdd(f, CombN(f, c, m, |x|, n - 1), Scale(f, c[n - 1], m[n - 1]), x, |x|);
      DotNScale(f, c[n - 1], m[n - 1], x, |x|);
    }
  }

  lemma CombDot<E(!new)>(f: Field<E>, c: seq<E>, m: seq<seq<E>>, x: seq<E>)
    requires f.Valid() && IsMatrix(m, |c|, |x|)
    ensures Dot(f, Comb(f, c, m, |x|), x) == Dot(f, c, Apply(f, m, x))
  {
    CombDotN(f, c, m, x, |c|);
  }

  lemma CombAt<E(!new)>(f: Field<E>, c: seq<E>, m: seq<seq<E>>, w: nat, j: nat)
    requires f.Valid() && IsMatrix(m, |c|, w) && j < w
    ensures Comb(f, c, m, w)[j] == Dot(f, c, Col(m, j))
  {
    CombNAt(f, c, m, w, |c|, j);
  }

  lemma CombIdentity<E(!new)>(f: Field<E>, c: seq<E>)
    requires f.Valid()
    ensures Comb(f, c, Identity(f, |c|), |c|) == c
  {
    forall j | 0 <= j < |c| ensures Comb(f, c, Identity(f, |c|), |c|)[j] == c[j] {
      CombAt(f, c, Identity(f, |c|), |c|, j);
      assert Col(Identity(f, |c|), j) == Unit(f, |c|, j);
      DotUnit(f, c, j);
    }
  }
}
