/** Column operations on encoding matrices and why they keep the code MDS. */
module ColumnOps {
  import opened Fields
  import opened Vectors
  import opened Polynomials
  import opened Kernels
  import opened Mds

  /** Column `j` of the rows from `from` on multiplied by `c`. */
  function ScaleCol<E(!new)>(f: Field<E>, m: seq<seq<E>>, k: nat, j: nat, c: E, from: nat): (r: seq<seq<E>>)
    requires IsMatrix(m, |m|, k) && j < k
    ensures IsMatrix(r, |m|, k)
    ensures forall i :: 0 <= i < |m| ==> r[i] == if i < from then m[i] else m[i][j := f.Mul(m[i][j], c)]
  {
    seq(|m|, i requires 0 <= i < |m| => if i < from then m[i] else m[i][j := f.Mul(m[i][j], c)])
  }

  /** `v` times column `i` added to column `j`. */
  function AddCol<E(!new)>(f: Field<E>, m: seq<seq<E>>, k: nat, i: nat, j: nat, v: E): (r: seq<seq<E>>)
    requires IsMatrix(m, |m|, k) && i < k && j < k
    ensures IsMatrix(r, |m|, k)
    ensures forall t :: 0 <= t < |m| ==> r[t] == m[t][j := f.Add(m[t][j], f.Mul(v, m[t][i]))]
  {
    seq(|m|, t requires 0 <= t < |m| => m[t][j := f.Add(m[t][j], f.Mul(v, m[t][i]))])
  }

  ghost predicate Orthogonal<E(!new)>(f: Field<E>, u: seq<E>, x: seq<E>) {
    |u| == |x| && Dot(f, u, x) == f.zero
  }

  /** Two different rows with the same orthogonal vectors. */
  ghost predicate Twins<E(!new)>(f: Field<E>, m: seq<seq<E>>, k: nat, a: nat, b: nat) {
    && IsMatrix(m, |m|, k) && a < |m| && b < |m| && a != b
    && forall x: seq<E> :: |x| == k ==> (Orthogonal(f, m[a], x) <==> Orthogonal(f, m[b], x))
  }

  /** What the Jerasure-like construction keeps: full column rank, and either the MDS property
      or, when an interior evaluation point is zero, a pair of indistinguishable rows. */
  ghost predicate Kept<E(!new)>(f: Field<E>, m: seq<seq<E>>, k: nat, good: bool) {
    && IsMatrix(m, |m|, k) && k <= |m|
    && TrivialKernel(f, m, k)
    && (if good then IsMds(f, m, |m|, k) else exists a, b :: Twins(f, m, k, a, b))
  }

  /** The matrices that satisfy the invariant. */
  ghost function Keepers<E(!new)>(f: Field<E>, n: nat, k: nat, good: bool): iset<seq<seq<E>>> {
    iset m: seq<seq<E>> | |m| == n && Kept(f, m, k, good)
  }

  /** `t` carries the vectors orthogonal to rows of `m'` to vectors orthogonal to rows of `m`. */
  ghost predicate Carries<E(!new)>(f: Field<E>, m: seq<seq<E>>, m': seq<seq<E>>, k: nat, t: seq<E> -> seq<E>) {
    && IsMatrix(m, |m|, k) && IsMatrix(m', |m|, k)
    && forall x: seq<E> :: |x| == k ==>
         && |t(x)| == k && (IsZero(f, t(x)) ==> IsZero(f, x))
         && forall r :: 0 <= r < |m| ==> (Orthogonal(f, m'[r], x) <==> Orthogonal(f, m[r], t(x)))
  }

  lemma CarriesKeeps<E(!new)>(f: Field<E>, m: seq<seq<E>>, m': seq<seq<E>>, k: nat, t: seq<E> -> seq<E>, good: bool)
    requires Carries(f, m, m', k, t) && m in Keepers(f, |m|, k, good)
    ensures m' in Keepers(f, |m|, k, good)
  {
    hide Carries, Twins, TrivialKernel, IsMds;
    CarriesKernel(f, m, m', k, t);
    if good {
      CarriesMds(f, m, m', k, t);
    } else {
      var a, b :| Twins(f, m, k, a, b);
      CarriesTwins(f, m, m', k, t, a, b);
    }
  }

  lemma CarriesKernel<E(!new)>(f: Field<E>, m: seq<seq<E>>, m': seq<seq<E>>, k: nat, t: seq<E> -> seq<E>)
    requires Carries(f, m, m', k, t) && TrivialKernel(f, m, k)
    ensures IsMatrix(m', |m|, k) && TrivialKernel(f, m', k)
  {
    forall x: seq<E> | x in Kernel(f, m', k) ensures IsZero(f, x) {
      CarriedIntoKernel(f, m, m', k, t, x);
    }
  }

  lemma CarriedIntoKernel<E(!new)>(f: Field<E>, m: seq<seq<E>>, m': seq<seq<E>>, k: nat, t: seq<E> -> seq<E>, x: seq<E>)
    requires Carries(f, m, m', k, t) && x in Kernel(f, m', k)
    ensures t(x) in Kernel(f, m, k) && (IsZero(f, t(x)) ==> IsZero(f, x))
  {
    assert InKernel(f, m', x);
    forall r | 0 <= r < |m| ensures Dot(f, m[r], t(x)) == f.zero {
      assert Orthogonal(f, m'[r], x);
      assert Orthogonal(f, m[r], t(x));
    }
  }

  lemma CarriesMds<E(!new)>(f: Field<E>, m: seq<seq<E>>, m': seq<seq<E>>, k: nat, t: seq<E> -> seq<E>)
    requires Carries(f, m, m', k, t) && IsMds(f, m, |m|, k)
    ensures IsMds(f, m', |m|, k)
  {
    forall idx: seq<nat>, x: seq<E> | Selection(idx, |m|, k) && |x| == k && Kills(f, m', idx, x)
      ensures IsZero(f, x)
    {
      CarriesKills(f, m, m', k, t, idx, x);
    }
  }

  lemma CarriesKills<E(!new)>(f: Field<E>, m: seq<seq<E>>, m': seq<seq<E>>, k: nat, t: seq<E> -> seq<E>, idx: seq<nat>, x: seq<E>)
    requires Carries(f, m, m', k, t) && IsMds(f, m, |m|, k)
    requires Selection(idx, |m|, k) && |x| == k && Kills(f, m', idx, x)
    ensures IsZero(f, x)
  {
    forall i | 0 <= i < k ensures Dot(f, m[idx[i]], t(x)) == f.zero {
      assert Dot(f, m'[idx[i]], x) == f.zero;
      assert Orthogonal(f, m'[idx[i]], x);
      assert Orthogonal(f, m[idx[i]], t(x));
    }
    assert Kills(f, m, idx, t(x));
  }

  lemma CarriesTwins<E(!new)>(f: Field<E>, m: seq<seq<E>>, m': seq<seq<E>>, k: nat, t: seq<E> -> seq<E>, a: nat, b: nat)
    requires Carries(f, m, m', k, t) && Twins(f, m, k, a, b)
    ensures Twins(f, m', k, a, b)
  {
    forall x: seq<E> | |x| == k ensures Orthogonal(f, m'[a], x) <==> Orthogonal(f, m'[b], x) {
      assert Orthogonal(f, m'[a], x) <==> Orthogonal(f, m[a], t(x));
      assert Orthogonal(f, m'[b], x) <==> Orthogonal(f, m[b], t(x));
    }
  }

  // ----- each operation carries

  /** Moving a factor from position `j` of the row to position `j` of the vector. */
  lemma {:induction false} DotNMoveFactor<E(!new)>(f: Field<E>, u: seq<E>, x: seq<E>, n: nat, j: nat, c: E)
    requires f.Valid() && n <= |u| && n <= |x| && j < |u| && j < |x|
    ensures DotN(f, u[j := f.Mul(u[j], c)], x, n) == DotN(f, u, x[j := f.Mul(c, x[j])], n)
  {
    if n > 0 {
      DotNMoveFactor(f, u, x, n - 1, j, c);
      f.Laws(u[j], c, x[j]);
    }
  }

  /** Adding a column to another moves weight the other way in the vector. */
  lemma DotAddCol<E(!new)>(f: Field<E>, u: seq<E>, x: seq<E>, i: nat, j: nat, v: E)
    requires f.Valid() && |u| == |x| && i < |u| && j < |u| && i != j
    ensures Dot(f, u[j := f.Add(u[j], f.Mul(v, u[i]))], x) == Dot(f, u, x[i := f.Add(x[i], f.Mul(v, x[j]))])
  {
    var n := |u|;
    var u' := u[j := f.Add(u[j], f.Mul(v, u[i]))];
    DotNUpdate(f, u, x, n, i, f.Mul(v, x[j]));
    DotNComm(f, u', x, n);
    DotNComm(f, u, x, n);
    DotNUpdate(f, x, u, n, j, f.Mul(v, u[i]));
    f.Laws(u[i], v, x[j]);
    f.Laws(x[j], v, u[i]);
    f.Laws(f.Mul(v, x[j]), u[i], v);
    f.Laws(v, x[j], u[i]);
    f.Laws(f.Mul(v, u[i]), x[j], v);
    f.Laws(v, u[i], x[j]);
    f.Laws(u[i], x[j], v);
  }

  lemma ScaleColKeeps<E(!new)>(f: Field<E>, m: seq<seq<E>>, k: nat, j: nat, c: E, good: bool)
    requires f.Valid() && m in Keepers(f, |m|, k, good) && j < k && c != f.zero
    ensures ScaleCol(f, m, k, j, c, 0) in Keepers(f, |m|, k, good)
  {
    var m' := ScaleCol(f, m, k, j, c, 0);
    var t := (x: seq<E>) => if |x| == k then x[j := f.Mul(c, x[j])] else x;
    forall x: seq<E> | |x| == k
      ensures |t(x)| == k && (IsZero(f, t(x)) ==> IsZero(f, x))
      ensures forall r :: 0 <= r < |m| ==> (Orthogonal(f, m'[r], x) <==> Orthogonal(f, m[r], t(x)))
    {
      ScaledVectorZero(f, x, j, c);
      forall r | 0 <= r < |m| ensures Orthogonal(f, m'[r], x) <==> Orthogonal(f, m[r], t(x)) {
        DotNMoveFactor(f, m[r], x, k, j, c);
      }
    }
    assert Carries(f, m, m', k, t);
    CarriesKeeps(f, m, m', k, t, good);
  }

  lemma ScaledVectorZero<E(!new)>(f: Field<E>, x: seq<E>, j: nat, c: E)
    requires f.Valid() && j < |x| && c != f.zero
    ensures IsZero(f, x[j := f.Mul(c, x[j])]) ==> IsZero(f, x)
  {
    f.NoZeroDivisors(c, x[j]);
    var y := x[j := f.Mul(c, x[j])];
    if IsZero(f, y) {
      assert y[j] == f.zero;
      assert forall i :: 0 <= i < |x| && i != j ==> x[i] == y[i];
    }
  }

  lemma AddColKeeps<E(!new)>(f: Field<E>, m: seq<seq<E>>, k: nat, i: nat, j: nat, v: E, good: bool)
    requires f.Valid() && m in Keepers(f, |m|, k, good) && i < k && j < k && i != j
    ensures AddCol(f, m, k, i, j, v) in Keepers(f, |m|, k, good)
  {
    var m' := AddCol(f, m, k, i, j, v);
    var t := (x: seq<E>) => if |x| == k then x[i := f.Add(x[i], f.Mul(v, x[j]))] else x;
    forall x: seq<E> | |x| == k
      ensures |t(x)| == k && (IsZero(f, t(x)) ==> IsZero(f, x))
      ensures forall r :: 0 <= r < |m| ==> (Orthogonal(f, m'[r], x) <==> Orthogonal(f, m[r], t(x)))
    {
      ShearedVectorZero(f, x, i, j, v);
      forall r | 0 <= r < |m| ensures Orthogonal(f, m'[r], x) <==> Orthogonal(f, m[r], t(x)) {
        DotAddCol(f, m[r], x, i, j, v);
      }
    }
    assert Carries(f, m, m', k, t);
    CarriesKeeps(f, m, m', k, t, good);
  }

  lemma ShearedVectorZero<E(!new)>(f: Field<E>, x: seq<E>, i: nat, j: nat, v: E)
    requires f.Valid() && i < |x| && j < |x| && i != j
    ensures IsZero(f, x[i := f.Add(x[i], f.Mul(v, x[j]))]) ==> IsZero(f, x)
  {
    var y := x[i := f.Add(x[i], f.Mul(v, x[j]))];
    if IsZero(f, y) {
      assert y[j] == f.zero && y[i] == f.zero;
      f.Laws(v, f.zero, f.zero);
      f.Laws(x[i], f.zero, f.zero);
      assert forall l :: 0 <= l < |x| && l != i ==> x[l] == y[l];
    }
  }

  lemma ScaleRowKeeps<E(!new)>(f: Field<E>, m: seq<seq<E>>, k: nat, r: nat, c: E, good: bool)
    requires f.Valid() && m in Keepers(f, |m|, k, good) && r < |m| && c != f.zero
    ensures ScaleRow(f, m, r, c) in Keepers(f, |m|, k, good)
  {
    var m' := ScaleRow(f, m, r, c);
    var t := (x: seq<E>) => x;
    forall x: seq<E>, s | |x| == k && 0 <= s < |m| ensures Orthogonal(f, m'[s], x) <==> Orthogonal(f, m[s], t(x)) {
      DotNScale(f, c, m[r], x, k);
      f.NoZeroDivisors(c, Dot(f, m[r], x));
    }
    assert Carries(f, m, m', k, t);
    CarriesKeeps(f, m, m', k, t, good);
  }

  /** Scaling a column below row `k` is scaling all of it and one unit row back. */
  lemma ScaleParityAsRow<E(!new)>(f: Field<E>, m: seq<seq<E>>, k: nat, j: nat, c: E)
    requires f.Valid() && IsMatrix(m, |m|, k) && Systematic(f, m, k) && j < k && c != f.zero
    ensures ScaleCol(f, m, k, j, c, k) == ScaleRow(f, ScaleCol(f, m, k, j, c, 0), j, f.Div(f.one, c))
    ensures Systematic(f, ScaleCol(f, m, k, j, c, k), k)
  {
    var all, m', inv := ScaleCol(f, m, k, j, c, 0), ScaleCol(f, m, k, j, c, k), f.Div(f.one, c);
    f.InverseNonZero(c);
    f.Laws(c, f.zero, f.zero);
    f.Laws(c, f.one, f.zero);
    f.Laws(inv, f.zero, f.zero);
    forall i | 0 <= i < |m| ensures m'[i] == ScaleRow(f, all, j, inv)[i] {
      if i < k && i != j {
        assert all[i] == m[i];
      } else if i == j {
        assert all[i] == m[i][j := c];
      }
    }
  }

  /** Scaling a column of the parity rows only: the unit rows above absorb the factor. */
  lemma ScaleParityColKeeps<E(!new)>(f: Field<E>, m: seq<seq<E>>, k: nat, j: nat, c: E, good: bool)
    requires f.Valid() && m in Keepers(f, |m|, k, good) && Systematic(f, m, k) && j < k && c != f.zero
    ensures ScaleCol(f, m, k, j, c, k) in Keepers(f, |m|, k, good)
    ensures Systematic(f, ScaleCol(f, m, k, j, c, k), k)
  {
    ScaleParityAsRow(f, m, k, j, c);
    ScaleColKeeps(f, m, k, j, c, good);
    f.InverseNonZero(c);
    ScaleRowKeeps(f, ScaleCol(f, m, k, j, c, 0), k, j, f.Div(f.one, c), good);
  }

  // ----- row exchanges

  lemma SwapKeeps<E(!new)>(f: Field<E>, m: seq<seq<E>>, k: nat, a: nat, b: nat, good: bool)
    requires m in Keepers(f, |m|, k, good) && a < |m| && b < |m|
    ensures SwapRows(m, a, b) in Keepers(f, |m|, k, good)
  {
    var m' := SwapRows(m, a, b);
    SwapKernel(f, m, k, a, b);
    if good {
      forall idx: seq<nat>, x: seq<E> | Selection(idx, |m|, k) && |x| == k && Kills(f, m', idx, x)
        ensures IsZero(f, x)
      {
        SwapKills(f, m, k, a, b, idx, x);
      }
    } else {
      var p, q :| Twins(f, m, k, p, q);
      assert Twins(f, m', k, Exchange(a, b, p), Exchange(a, b, q));
    }
  }

  function Exchange(a: nat, b: nat, i: nat): nat {
    if i == a then b else if i == b then a else i
  }

  lemma SwapKills<E(!new)>(f: Field<E>, m: seq<seq<E>>, k: nat, a: nat, b: nat, idx: seq<nat>, x: seq<E>)
    requires IsMds(f, m, |m|, k) && a < |m| && b < |m|
    requires Selection(idx, |m|, k) && |x| == k && Kills(f, SwapRows(m, a, b), idx, x)
    ensures IsZero(f, x)
  {
    var m' := SwapRows(m, a, b);
    var back := seq(k, i requires 0 <= i < k => Exchange(a, b, idx[i]));
    forall i | 0 <= i < k ensures Dot(f, m[back[i]], x) == f.zero {
      assert Dot(f, m'[idx[i]], x) == f.zero;
      assert m[back[i]] == m'[idx[i]];
    }
    assert Selection(back, |m|, k) && Kills(f, m, back, x);
  }

  // ----- nonzero entries that the invariant guarantees

  /** With the rows above `i` unit rows, column `i` has a nonzero entry from row `i` on. */
  lemma PivotExists<E(!new)>(f: Field<E>, m: seq<seq<E>>, k: nat, i: nat, good: bool)
    requires f.Valid() && m in Keepers(f, |m|, k, good) && i < k
    requires forall r :: 0 <= r < i ==> m[r] == Unit(f, k, r)
    ensures exists r :: i <= r < |m| && m[r][i] != f.zero
  {
    var e := Unit(f, k, i);
    assert e[i] != f.zero;
    assert e !in Kernel(f, m, k);
    assert !InKernel(f, m, e);
    var r :| 0 <= r < |m| && Dot(f, m[r], e) != f.zero;
    DotUnit(f, m[r], i);
  }

  /** In a systematic MDS matrix every parity coefficient is nonzero. */
  lemma ParityNonZero<E(!new)>(f: Field<E>, m: seq<seq<E>>, k: nat, row: nat, j: nat)
    requires f.Valid() && IsMds(f, m, |m|, k) && Systematic(f, m, k) && k <= row < |m| && j < k
    ensures m[row][j] != f.zero
  {
    if m[row][j] == f.zero {
      ReplacedRowSingular(f, m, k, row, j);
    }
  }

  /** A zero coefficient defeats the selection that trades data row `j` for that parity row. */
  lemma ReplacedRowSingular<E(!new)>(f: Field<E>, m: seq<seq<E>>, k: nat, row: nat, j: nat)
    requires f.Valid() && IsMatrix(m, |m|, k) && Systematic(f, m, k) && k <= row < |m| && j < k && m[row][j] == f.zero
    ensures !IsMds(f, m, |m|, k)
  {
    var idx := seq(k, t requires 0 <= t < k => if t == j then row else t);
    var e := Unit(f, k, j);
    forall t | 0 <= t < k ensures Dot(f, m[idx[t]], e) == f.zero {
      DotUnit(f, m[idx[t]], j);
    }
    assert Selection(idx, |m|, k) && Kills(f, m, idx, e);
    assert e[j] != f.zero;
  }

  /** Indistinguishable rows rule the MDS property out as soon as there are two data shards. */
  lemma TwinsNotMds<E(!new)>(f: Field<E>, m: seq<seq<E>>, k: nat, a: nat, b: nat)
    requires f.Valid() && Systematic(f, m, k) && Twins(f, m, k, a, b) && k >= 2
    ensures !IsMds(f, m, |m|, k)
  {
    if a < k && b < k {
      TwinAcross(f, m, k, a, b, a);
    } else if a < k {
      var j := if a == 0 then 1 else 0;
      TwinAcross(f, m, k, a, b, j);
      ReplacedRowSingular(f, m, k, b, j);
    } else if b < k {
      var j := if b == 0 then 1 else 0;
      TwinAcross(f, m, k, b, a, j);
      ReplacedRowSingular(f, m, k, a, j);
    } else {
      ParityTwins(f, m, k, a, b);
    }
  }

  lemma TwinAcross<E(!new)>(f: Field<E>, m: seq<seq<E>>, k: nat, a: nat, b: nat, j: nat)
    requires f.Valid() && Systematic(f, m, k) && a < k && j < k
    requires Twins(f, m, k, a, b) || Twins(f, m, k, b, a)
    ensures m[b][j] == f.zero <==> j != a
  {
    var e := Unit(f, k, j);
    assert Orthogonal(f, m[a], e) <==> Orthogonal(f, m[b], e);
    DotUnit(f, m[a], j);
    DotUnit(f, m[b], j);
  }

  /** Two indistinguishable parity rows share a nonzero vector supported on the first two columns. */
  lemma ParityTwins<E(!new)>(f: Field<E>, m: seq<seq<E>>, k: nat, a: nat, b: nat)
    requires f.Valid() && Systematic(f, m, k) && Twins(f, m, k, a, b) && k >= 2 && k <= a && k <= b
    ensures !IsMds(f, m, |m|, k)
  {
    var p, q := m[a][0], m[a][1];
    if p == f.zero {
      ReplacedRowSingular(f, m, k, a, 0);
    } else {
      var x := Unit(f, k, 0)[0 := q][1 := p];
      CrossOrthogonal(f, m[a], x);
      assert Orthogonal(f, m[a], x) && Orthogonal(f, m[b], x);
      var idx := seq(k, t requires 0 <= t < k => if t == 0 then a else if t == 1 then b else t);
      forall t | 0 <= t < k ensures Dot(f, m[idx[t]], x) == f.zero {
        if t >= 2 {
          DotUnit(f, x, t);
        }
      }
      assert Selection(idx, |m|, k) && Kills(f, m, idx, x);
      assert x[1] != f.zero;
    }
  }

  /** A vector that exchanges the first two entries of a row and is zero elsewhere. */
  lemma CrossOrthogonal<E(!new)>(f: Field<E>, u: seq<E>, x: seq<E>)
    requires f.Valid() && |u| == |x| >= 2 && x[0] == u[1] && x[1] == u[0] && forall j :: 2 <= j < |x| ==> x[j] == f.zero
    ensures Orthogonal(f, u, x)
  {
    assert u == u[..2] + u[2..] && x == x[..2] + x[2..];
    DotNConcat(f, u[..2], u[2..], x[..2], x[2..], |u| - 2);
    DotNZero(f, u[2..], x[2..], |u| - 2);
    TwoTerms(f, u[..2], x[..2]);
    f.Laws(u[0], u[1], u[0]);
    f.Laws(f.Mul(u[0], u[1]), f.zero, u[0]);
    f.Laws(f.zero, f.zero, f.zero);
  }

  lemma TwoTerms<E(!new)>(f: Field<E>, u: seq<E>, x: seq<E>)
    requires f.Valid() && |u| == 2 && |x| == 2
    ensures Dot(f, u, x) == f.Add(f.Mul(u[0], x[0]), f.Mul(u[1], x[1]))
  {
    assert DotN(f, u, x, 1) == f.Add(DotN(f, u, x, 0), f.Mul(u[0], x[0]));
    f.Laws(f.Mul(u[0], x[0]), f.zero, f.zero);
  }

  /** The starting point of the construction. */
  lemma ExtendedVandermondeKept<E(!new)>(f: Field<E>, n: nat, k: nat)
    requires f.Valid() && 0 < k < n <= f.order
    ensures ExtendedVandermonde(f, n, k) in Keepers(f, n, k, k == 1 || InteriorNonZero(f, n))
  {
    var v := ExtendedVandermonde(f, n, k);
    if k == 1 {
      SingleColumnMds(f, n);
      TopTrivialKernel(f, v, n, k);
    } else if InteriorNonZero(f, n) {
      ExtendedVandermondeMds(f, n, k);
      TopTrivialKernel(f, v, n, k);
    } else {
      var i: nat :| 1 <= i < n - 1 && f.Nth(i) == f.zero;
      ExtendedFullRank(f, n, k, i);
      RepeatedPoint(f, n, k, i);
    }
  }

  lemma SingleColumnMds<E(!new)>(f: Field<E>, n: nat)
    requires f.Valid() && 1 < n <= f.order
    ensures IsMds(f, ExtendedVandermonde(f, n, 1), n, 1)
  {
    var v := ExtendedVandermonde(f, n, 1);
    forall idx: seq<nat>, x: seq<E> | Selection(idx, n, 1) && |x| == 1 && Kills(f, v, idx, x)
      ensures IsZero(f, x)
    {
      var row := v[idx[0]];
      assert row == [f.one] && Dot(f, row, x) == f.zero;
      DotUnit(f, x, 0);
      assert row == Unit(f, 1, 0);
    }
  }

  lemma RepeatedPoint<E(!new)>(f: Field<E>, n: nat, k: nat, i: nat)
    requires f.Valid() && 1 < k < n <= f.order && 1 <= i < n - 1 && f.Nth(i) == f.zero
    ensures Twins(f, ExtendedVandermonde(f, n, k), k, 0, i)
  {
    forall x: seq<E> | |x| == k ensures Dot(f, ExtendedVandermonde(f, n, k)[0], x) == Dot(f, ExtendedVandermonde(f, n, k)[i], x) {
      ExtendedRow(f, n, k, 0, x);
      ExtendedRow(f, n, k, i, x);
    }
  }

  /** Even with a repeated point, the remaining points and infinity determine the polynomial. */
  lemma ExtendedFullRank<E(!new)>(f: Field<E>, n: nat, k: nat, i: nat)
    requires f.Valid() && 1 < k < n <= f.order && 1 <= i < n - 1 && f.Nth(i) == f.zero
    ensures TrivialKernel(f, ExtendedVandermonde(f, n, k), k)
  {
    var v := ExtendedVandermonde(f, n, k);
    forall x: seq<E> | x in Kernel(f, v, k) ensures IsZero(f, x) {
      assert InKernel(f, v, x);
      LastIsZero(f, n, k, x);
      var low := x[..k - 1];
      var roots := seq(k - 1, t requires 0 <= t < k - 1 => f.Nth(t + 1));
      forall s, t | 0 <= s < t < k - 1 ensures roots[s] != roots[t] {
        assert f.NthLaw(s + 1, t + 1);
      }
      forall t | 0 <= t < k - 1 ensures Eval(f, low, roots[t]) == f.zero {
        LowEval(f, n, k, x, t + 1);
      }
      RootBound(f, low, roots);
    }
  }

  /** The row of infinity reads the leading coefficient. */
  lemma LastIsZero<E(!new)>(f: Field<E>, n: nat, k: nat, x: seq<E>)
    requires f.Valid() && 1 < k < n <= f.order && |x| == k && x in Kernel(f, ExtendedVandermonde(f, n, k), k)
    ensures x == x[..k - 1] + [f.zero]
  {
    assert InKernel(f, ExtendedVandermonde(f, n, k), x);
    ExtendedRow(f, n, k, n - 1, x);
  }

  lemma LowEval<E(!new)>(f: Field<E>, n: nat, k: nat, x: seq<E>, i: nat)
    requires f.Valid() && 1 < k < n <= f.order && |x| == k && x in Kernel(f, ExtendedVandermonde(f, n, k), k)
    requires 1 <= i < n - 1 && x == x[..k - 1] + [f.zero]
    ensures Eval(f, x[..k - 1], f.Nth(i)) == f.zero
  {
    assert InKernel(f, ExtendedVandermonde(f, n, k), x);
    ExtendedRow(f, n, k, i, x);
    EvalSnoc(f, x[..k - 1], f.zero, f.Nth(i));
    f.Laws(f.Pow(f.Nth(i), k - 1), f.zero, f.zero);
    f.Laws(Eval(f, x[..k - 1], f.Nth(i)), f.zero, f.zero);
  }
}
