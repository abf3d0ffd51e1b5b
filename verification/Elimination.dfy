/** The steps of Gaussian elimination and the invariants they keep. */
module Elimination {
  import opened Fields
  import opened Vectors
  import opened Kernels

  /** Rows `from .. upto` are zero in column `col`. */
  ghost predicate ColumnZero<E(!new)>(f: Field<E>, m: seq<seq<E>>, w: nat, col: nat, from: nat, upto: nat) {
    IsMatrix(m, |m|, w) && col < w && upto <= |m| && forall i :: from <= i < upto ==> m[i][col] == f.zero
  }

  /** Upper triangular with a unit diagonal, and zero above the diagonal before column `d`. */
  ghost predicate Reduced<E(!new)>(f: Field<E>, m: seq<seq<E>>, w: nat, d: nat) {
    && UnitUpper(f, m, w, |m|)
    && forall i :: 0 <= i < |m| ==> ZeroRange(f, m[i], i + 1, d)
  }

  /** The leading square block of `m` is the identity. */
  ghost predicate LeftIdentity<E(!new)>(f: Field<E>, m: seq<seq<E>>, w: nat) {
    IsMatrix(m, |m|, w) && |m| <= w && forall i :: 0 <= i < |m| ==> m[i][..|m|] == Unit(f, |m|, i)
  }

  /** Clearing one entry of a column with its unit pivot row. */
  function ClearEntry<E(==, !new)>(f: Field<E>, m: seq<seq<E>>, w: nat, r: nat, i: nat): (c: seq<seq<E>>)
    requires IsMatrix(m, |m|, w) && r < |m| && r < w && i < |m| && i != r
    ensures IsMatrix(c, |m|, w)
    ensures forall t :: 0 <= t < |m| && t != i ==> c[t] == m[t]
  {
    if m[i][r] == f.zero then m else AddRow(f, m, r, i, m[i][r])
  }

  /** Clears column `r` of the rows `from .. upto` with the pivot row `r`, in index order. */
  function ClearColumn<E(==, !new)>(f: Field<E>, m: seq<seq<E>>, w: nat, r: nat, from: nat, upto: nat): (c: seq<seq<E>>)
    requires IsMatrix(m, |m|, w) && r < |m| && r < w && upto <= |m| && !(from <= r < upto)
    ensures IsMatrix(c, |m|, w)
    ensures forall i :: 0 <= i < |m| && !(from <= i < upto) ==> c[i] == m[i]
  {
    if upto <= from then m else ClearEntry(f, ClearColumn(f, m, w, r, from, upto - 1), w, r, upto - 1)
  }

  // ----- no step changes the kernel

  lemma ClearEntryKernel<E(!new)>(f: Field<E>, m: seq<seq<E>>, w: nat, r: nat, i: nat)
    requires f.Valid() && IsMatrix(m, |m|, w) && r < |m| && r < w && i < |m| && i != r
    ensures Kernel(f, m, w) == Kernel(f, ClearEntry(f, m, w, r, i), w)
  {
    AddRowKernel(f, m, w, r, i, m[i][r]);
  }

  lemma {:induction false} ClearColumnKernel<E(!new)>(f: Field<E>, m: seq<seq<E>>, w: nat, r: nat, from: nat, upto: nat)
    requires f.Valid() && IsMatrix(m, |m|, w) && r < |m| && r < w && upto <= |m| && !(from <= r < upto)
    ensures Kernel(f, m, w) == Kernel(f, ClearColumn(f, m, w, r, from, upto), w)
  {
    if upto > from {
      var t := ClearColumn(f, m, w, r, from, upto - 1);
      ClearColumnKernel(f, m, w, r, from, upto - 1);
      ClearEntryKernel(f, t, w, r, upto - 1);
    }
  }

  // ----- the shape after each step

  lemma SwapShape<E(!new)>(f: Field<E>, m: seq<seq<E>>, w: nat, r: nat, a: nat, b: nat)
    requires UnitUpper(f, m, w, r) && r <= a < |m| && r <= b < |m|
    ensures UnitUpper(f, SwapRows(m, a, b), w, r)
  {
  }

  lemma NormalizeShape<E(!new)>(f: Field<E>, m: seq<seq<E>>, w: nat, r: nat)
    requires f.Valid() && UnitUpper(f, m, w, r) && r < |m| && m[r][r] != f.zero
    ensures UnitUpper(f, ScaleRow(f, m, r, f.Div(f.one, m[r][r])), w, r)
    ensures ScaleRow(f, m, r, f.Div(f.one, m[r][r]))[r][r] == f.one
  {
    f.InverseNonZero(m[r][r]);
    f.Laws(f.Div(f.one, m[r][r]), f.zero, f.zero);
  }

  /** The entries of the row being cleared, up to and including the pivot column. */
  lemma ClearEntryRow<E(!new)>(f: Field<E>, m: seq<seq<E>>, w: nat, r: nat, i: nat)
    requires f.Valid() && IsMatrix(m, |m|, w) && r < |m| && r < w && i < |m| && i != r
    requires m[r][r] == f.one && ZeroRange(f, m[r], 0, r)
    ensures forall j :: 0 <= j <= r ==> ClearEntry(f, m, w, r, i)[i][j] == if j == r then f.zero else m[i][j]
  {
    var s := m[i][r];
    f.Laws(s, s, s);
    forall j | 0 <= j < r ensures f.Add(m[i][j], f.Mul(s, m[r][j])) == m[i][j] {
      f.Laws(s, f.zero, f.zero);
      f.Laws(m[i][j], f.zero, f.zero);
    }
  }

  /** What clearing does to every row: the pivot column becomes zero, earlier columns keep. */
  lemma {:induction false} ClearColumnRows<E(!new)>(f: Field<E>, m: seq<seq<E>>, w: nat, r: nat, from: nat, upto: nat)
    requires f.Valid() && IsMatrix(m, |m|, w) && r < |m| && r < w && upto <= |m| && !(from <= r < upto)
    requires m[r][r] == f.one && ZeroRange(f, m[r], 0, r)
    ensures var c := ClearColumn(f, m, w, r, from, upto);
            forall i, j :: from <= i < upto && 0 <= j <= r ==> c[i][j] == if j == r then f.zero else m[i][j]
  {
    if upto > from {
      ClearColumnRows(f, m, w, r, from, upto - 1);
      ClearEntryRow(f, ClearColumn(f, m, w, r, from, upto - 1), w, r, upto - 1);
    }
  }

  lemma ForwardShape<E(!new)>(f: Field<E>, m: seq<seq<E>>, w: nat, r: nat)
    requires f.Valid() && UnitUpper(f, m, w, r) && r < |m| && m[r][r] == f.one
    ensures UnitUpper(f, ClearColumn(f, m, w, r, r + 1, |m|), w, r + 1)
  {
    ClearColumnRows(f, m, w, r, r + 1, |m|);
  }

  /** The pivot row scaled to a unit pivot. */
  function Normalized<E(==, !new)>(f: Field<E>, m: seq<seq<E>>, w: nat, r: nat): (n: seq<seq<E>>)
    requires IsMatrix(m, |m|, w) && r < |m| && r < w
    ensures IsMatrix(n, |m|, w)
  {
    if m[r][r] == f.one then m else ScaleRow(f, m, r, f.Div(f.one, m[r][r]))
  }

  /** One round of the forward pass: swap, normalize, clear below. */
  lemma PivotRoundStep<E(!new)>(f: Field<E>, m: seq<seq<E>>, w: nat, r: nat, chosen: nat)
    requires f.Valid() && UnitUpper(f, m, w, r) && r <= chosen < |m|
    requires SwapRows(m, r, chosen)[r][r] != f.zero
    ensures var n := Normalized(f, SwapRows(m, r, chosen), w, r);
            && n[r][r] == f.one && ZeroRange(f, n[r], 0, r)
            && UnitUpper(f, ClearColumn(f, n, w, r, r + 1, |m|), w, r + 1)
            && Kernel(f, m, w) == Kernel(f, ClearColumn(f, n, w, r, r + 1, |m|), w)
  {
    var s := SwapRows(m, r, chosen);
    SwapShape(f, m, w, r, r, chosen);
    SwapKernel(f, m, w, r, chosen);
    NormalizeShape(f, s, w, r);
    f.InverseNonZero(s[r][r]);
    ScaleKernel(f, s, w, r, f.Div(f.one, s[r][r]));
    var n := Normalized(f, s, w, r);
    ForwardShape(f, n, w, r);
    ClearColumnKernel(f, n, w, r, r + 1, |m|);
  }

  lemma BackwardShape<E(!new)>(f: Field<E>, m: seq<seq<E>>, w: nat, d: nat)
    requires f.Valid() && Reduced(f, m, w, d) && d < |m|
    ensures Reduced(f, ClearColumn(f, m, w, d, 0, d), w, d + 1)
  {
    ClearColumnRows(f, m, w, d, 0, d);
  }

  lemma ReducedDone<E(!new)>(f: Field<E>, m: seq<seq<E>>, w: nat)
    requires Reduced(f, m, w, |m|)
    ensures LeftIdentity(f, m, w)
  {
  }

  /** An identity left block leaves no kernel vector supported on it: success and failure of
      elimination exclude each other. */
  lemma LeftIdentityKernel<E(!new)>(f: Field<E>, m: seq<seq<E>>, w: nat, z: seq<E>)
    requires f.Valid() && LeftIdentity(f, m, w) && |z| == w && InKernel(f, m, z)
    requires forall j :: |m| <= j < w ==> z[j] == f.zero
    ensures IsZero(f, z)
  {
    forall i | 0 <= i < |m| ensures z[i] == f.zero {
      assert m[i][..|m|][i] == f.one;
      assert forall j :: 0 <= j < |m| ==> m[i][j] == m[i][..|m|][j];
      DotNSingle(f, m[i], z, w, i);
      f.Laws(z[i], z[i], z[i]);
    }
  }
}
