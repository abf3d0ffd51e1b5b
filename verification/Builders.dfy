/** The encoding-matrix builders. */
module Builders {
  import opened Outcomes
  import opened Fields
  import opened Vectors
  import opened Kernels
  import opened Slices
  import opened Mds
  import opened Matrices

  datatype BuildError = InvalidCustomMatrix | UnsupportedCodecFamily

  datatype MatrixMode = VandermondeMode | CauchyMode | JerasureLikeMode | CustomMode

  // ----- systematic Vandermonde

  /** The code whose product with the top square block is the Vandermonde matrix. */
  ghost predicate VandermondeCode<E(!new)>(f: Field<E>, g: seq<seq<E>>, n: nat, k: nat) {
    && k <= n && IsMatrix(g, n, k)
    && MatMul(f, g, VandermondeRows(f, n, k)[..k], k) == VandermondeRows(f, n, k)
  }

  /** `g` is `v` times an inverse of the top block of `v`. */
  ghost predicate ProductWithInverse<E(!new)>(f: Field<E>, v: seq<seq<E>>, g: seq<seq<E>>, k: nat)
    requires k <= |v| && IsMatrix(v, |v|, k)
  {
    exists b :: AreInverse(f, v[..k], b, k) && g == MatMul(f, v, b, k)
  }

  /** The product with the inverse of the top block is systematic and multiplies back. */
  lemma ProductBack<E(!new)>(f: Field<E>, v: seq<seq<E>>, b: seq<seq<E>>, n: nat, k: nat)
    requires f.Valid() && k <= n && IsMatrix(v, n, k) && AreInverse(f, v[..k], b, k)
    ensures var g := MatMul(f, v, b, k);
            Systematic(f, g, k) && MatMul(f, g, v[..k], k) == v
  {
    var g, top := MatMul(f, v, b, k), v[..k];
    forall i | 0 <= i < k ensures g[i] == Unit(f, k, i) {
      assert MatMul(f, top, b, k)[i] == Identity(f, k)[i];
    }
    MatMulAssoc(f, v, b, top, k);
    forall i | 0 <= i < n ensures MatMul(f, v, Identity(f, k), k)[i] == v[i] {
      CombIdentity(f, v[i]);
    }
  }

  /** Multiplying by the inverse of the top block keeps the MDS property and makes the code systematic. */
  lemma SystematicProduct<E(!new)>(f: Field<E>, v: seq<seq<E>>, b: seq<seq<E>>, n: nat, k: nat)
    requires f.Valid() && IsMds(f, v, n, k) && AreInverse(f, v[..k], b, k)
    ensures var g := MatMul(f, v, b, k);
            IsMds(f, g, n, k) && Systematic(f, g, k) && MatMul(f, g, v[..k], k) == v
  {
    ProductBack(f, v, b, n, k);
    var g := MatMul(f, v, b, k);
    forall idx: seq<nat>, x: seq<E> | Selection(idx, n, k) && |x| == k && Kills(f, g, idx, x)
      ensures IsZero(f, x)
    {
      ProductKernel(f, v, b, n, k, idx, x);
    }
  }

  lemma ProductKernel<E(!new)>(f: Field<E>, v: seq<seq<E>>, b: seq<seq<E>>, n: nat, k: nat, idx: seq<nat>, x: seq<E>)
    requires f.Valid() && IsMds(f, v, n, k) && AreInverse(f, v[..k], b, k)
    requires Selection(idx, n, k) && |x| == k && Kills(f, MatMul(f, v, b, k), idx, x)
    ensures IsZero(f, x)
  {
    var y := Apply(f, b, x);
    forall i | 0 <= i < k ensures Dot(f, v[idx[i]], y) == f.zero {
      assert Dot(f, MatMul(f, v, b, k)[idx[i]], x) == f.zero;
      CombDot(f, v[idx[i]], b, x);
    }
    assert Kills(f, v, idx, y);
    InverseApply(f, v[..k], b, x);
    forall i | 0 <= i < k ensures x[i] == f.zero {
      DotNZero(f, v[i], y, k);
      assert Apply(f, v[..k], y)[i] == Dot(f, v[i], y);
    }
  }

  /** There is only one such code, so the two ways of building it agree. */
  lemma VandermondeCodeUnique<E(!new)>(f: Field<E>, g: seq<seq<E>>, h: seq<seq<E>>, b: seq<seq<E>>, n: nat, k: nat)
    requires f.Valid() && VandermondeCode(f, g, n, k) && VandermondeCode(f, h, n, k)
    requires AreInverse(f, VandermondeRows(f, n, k)[..k], b, k)
    ensures g == h
  {
    var v := VandermondeRows(f, n, k);
    forall i | 0 <= i < n ensures g[i] == h[i] {
      assert MatMul(f, g, v[..k], k)[i] == MatMul(f, h, v[..k], k)[i];
      CancelRow(f, g[i], v[..k], b);
      CancelRow(f, h[i], v[..k], b);
    }
  }

  lemma CancelRow<E(!new)>(f: Field<E>, row: seq<E>, a: seq<seq<E>>, b: seq<seq<E>>)
    requires f.Valid() && AreInverse(f, a, b, |row|)
    ensures Comb(f, Comb(f, row, a, |row|), b, |row|) == row
  {
    CombAssoc(f, row, a, b, |row|);
    CombIdentity(f, row);
  }

  lemma VandermondeTop<E(!new)>(f: Field<E>, n: nat, k: nat)
    requires f.Valid() && k <= n <= f.order
    ensures IsMds(f, VandermondeRows(f, n, k), n, k)
    ensures TrivialKernel(f, VandermondeRows(f, n, k)[..k], k)
  {
    VandermondeMds(f, n, k);
    TopTrivialKernel(f, VandermondeRows(f, n, k), n, k);
  }

  /** Inverts the top square block of a Vandermonde matrix; the singular case never occurs. */
  method InvertTop<E(==, !new)>(vandermonde: Matrix<E>, byteRows: bool) returns (r: Result<Matrix<E>, MatrixError>)
    requires vandermonde.Valid() && vandermonde.colCount <= vandermonde.rowCount <= vandermonde.field.order
    requires vandermonde.Rows() == VandermondeRows(vandermonde.field, vandermonde.rowCount, vandermonde.colCount)
    ensures r.Ok? && fresh(r.value) && fresh(r.value.data) && r.value.Valid() && r.value.field == vandermonde.field
    ensures r.value.rowCount == vandermonde.colCount && r.value.colCount == vandermonde.colCount
    ensures AreInverse(vandermonde.field, vandermonde.Rows()[..vandermonde.colCount], r.value.Rows(), vandermonde.colCount)
  {
    var k := vandermonde.colCount;
    ghost var v := vandermonde.Rows();
    VandermondeTop(vandermonde.field, vandermonde.rowCount, k);
    var top := vandermonde.SubMatrix(0, 0, k, k);
    assert forall i :: 0 <= i < k ==> top.Rows()[i] == v[0 + i][0..k] == v[i];
    assert top.Rows() == v[..k];
    ghost var kernelVector;
    r, kernelVector := top.Invert(byteRows);
  }

  /** `[top | I]` for the top square block of a tall matrix. */
  method AugmentTop<E(==, !new)>(m: Matrix<E>) returns (work: Matrix<E>)
    requires m.Valid() && m.colCount <= m.rowCount
    ensures fresh(work) && fresh(work.data) && work.Valid() && work.field == m.field
    ensures work.rowCount == m.colCount && work.colCount == m.colCount + m.colCount
    ensures IsMatrix(m.Rows()[..m.colCount], m.colCount, m.colCount)
    ensures forall i :: 0 <= i < work.rowCount ==> |work.Rows()[i]| == work.colCount
    ensures work.Rows() == Augment(m.Rows()[..m.colCount], Identity(m.field, m.colCount))
  {
    hide Overlaid, RowsOf, Patch, Unit, Zeros, Identity, Augment, Field.Valid;
    var f, k := m.field, m.colCount;
    ghost var v := m.Rows();
    work := new Matrix(f, k, k + k);
    ghost var goal, zeros := Augment(v[..k], Identity(f, k)), work.Rows();
    OverlaidEnds(goal, zeros);
    for row := 0 to k
      invariant m.Rows() == v && work.Rows() == Overlaid(goal, zeros, row)
    {
      var top := m.GetRow(row);
      work.CopyRow(row, top);
      work.Set(row, k + row, f.one);
      AugmentedRow(f, top, row);
      OverlaidStep(goal, zeros, row);
    }
  }

  /** The variant that keeps the inverse in the right half of the elimination workspace.
      It works for every tall matrix whose top block is not singular. */
  method SystematicFromVandermonde<E(==, !new)>(m: Matrix<E>, byteRows: bool) returns (r: Result<Matrix<E>, MatrixError>)
    requires m.Valid()
    ensures m.rowCount < m.colCount <==> r == Err(IncompatibleDimensions)
    ensures m.colCount <= m.rowCount ==> (r.Ok? <==> TrivialKernel(m.field, m.Rows()[..m.colCount], m.colCount))
    ensures m.colCount <= m.rowCount && r.Err? ==> r.error == SingularMatrix
    ensures r.Ok? ==> fresh(r.value) && fresh(r.value.data) && r.value.Valid() && r.value.field == m.field
    ensures r.Ok? ==> r.value.rowCount == m.rowCount && r.value.colCount == m.colCount
    ensures r.Ok? ==> Systematic(m.field, r.value.Rows(), m.colCount)
    ensures r.Ok? ==> MatMul(m.field, r.value.Rows(), m.Rows()[..m.colCount], m.colCount) == m.Rows()
    ensures r.Ok? ==> ProductWithInverse(m.field, m.Rows(), r.value.Rows(), m.colCount)
  {
    hide *;
    var k := m.colCount;
    if m.rowCount < k {
      return Err(IncompatibleDimensions);
    }
    var work, eliminated := EliminateTop(m, byteRows);
    if eliminated.Err? {
      return Err(eliminated.error);
    }
    var inverse := work.SubMatrix(0, k, k, k + k);
    r := MultiplyTopInverse(m, inverse);
  }

  /** Eliminates `[top | I]`, leaving the inverse of the top block in the right half. */
  method EliminateTop<E(==, !new)>(m: Matrix<E>, byteRows: bool) returns (work: Matrix<E>, r: Result<(), MatrixError>)
    requires m.Valid() && m.colCount <= m.rowCount
    ensures fresh(work) && fresh(work.data) && work.Valid() && work.field == m.field
    ensures work.rowCount == m.colCount && work.colCount == m.colCount + m.colCount
    ensures forall i :: 0 <= i < work.rowCount ==> |work.Rows()[i]| == work.colCount
    ensures IsMatrix(m.Rows()[..m.colCount], m.colCount, m.colCount)
    ensures r.Ok? <==> TrivialKernel(m.field, m.Rows()[..m.colCount], m.colCount)
    ensures r.Err? ==> r.error == SingularMatrix
    ensures r.Ok? ==> AreInverse(m.field, m.Rows()[..m.colCount], SubRows(work.Rows(), 0, m.colCount, m.colCount, m.colCount + m.colCount), m.colCount)
  {
    hide *;
    var k := m.colCount;
    m.FieldIsValid();
    work := AugmentTop(m);
    ghost var kernelVector;
    r, kernelVector := work.GaussianElim(byteRows);
    work.RowLengths();
    if r.Err? {
      ghost var x := SingularLeft(m.field, m.Rows()[..k], Identity(m.field, k), kernelVector, k);
    } else {
      InverseRead(m.field, m.Rows()[..k], work.Rows(), k);
    }
  }

  /** Multiplies by the inverse of the top block. */
  method MultiplyTopInverse<E(==, !new)>(m: Matrix<E>, inverse: Matrix<E>) returns (r: Result<Matrix<E>, MatrixError>)
    requires m.Valid() && inverse.Valid() && inverse.field == m.field && m.colCount <= m.rowCount
    requires m.colCount == inverse.rowCount && inverse.colCount == m.colCount
    requires AreInverse(m.field, m.Rows()[..m.colCount], inverse.Rows(), m.colCount)
    ensures r.Ok? && fresh(r.value) && fresh(r.value.data) && r.value.Valid() && r.value.field == m.field
    ensures r.value.rowCount == m.rowCount && r.value.colCount == m.colCount
    ensures r.value.Rows() == MatMul(m.field, m.Rows(), inverse.Rows(), m.colCount)
    ensures Systematic(m.field, r.value.Rows(), m.colCount)
    ensures MatMul(m.field, r.value.Rows(), m.Rows()[..m.colCount], m.colCount) == m.Rows()
    ensures ProductWithInverse(m.field, m.Rows(), r.value.Rows(), m.colCount)
  {
    ProductBack(m.field, m.Rows(), inverse.Rows(), m.rowCount, m.colCount);
    hide *;
    r := m.Multiply(inverse);
  }

  /** The default builder.  `reuseWorkspace` selects the variant without temporary matrices;
      both variants build the same matrix. */
  method BuildMatrix<E(==, !new)>(f: Field<E>, k: nat, n: nat, byteRows: bool, reuseWorkspace: bool)
    returns (r: Result<Matrix<E>, BuildError>)
    requires f.Valid() && k <= n <= f.order
    ensures r.Ok? && fresh(r.value) && fresh(r.value.data) && r.value.Valid() && r.value.field == f
    ensures r.value.rowCount == n && r.value.colCount == k
    ensures VandermondeCode(f, r.value.Rows(), n, k)
    ensures Systematic(f, r.value.Rows(), k) && IsMds(f, r.value.Rows(), n, k)
  {
    var vandermonde := Matrix.Vandermonde(f, n, k);
    if reuseWorkspace && k * k > 512 {
      r := BuildInWorkspace(vandermonde, byteRows);
    } else {
      r := BuildByProduct(vandermonde, byteRows);
    }
  }

  method BuildByProduct<E(==, !new)>(vandermonde: Matrix<E>, byteRows: bool) returns (r: Result<Matrix<E>, BuildError>)
    requires vandermonde.Valid() && vandermonde.colCount <= vandermonde.rowCount <= vandermonde.field.order
    requires vandermonde.Rows() == VandermondeRows(vandermonde.field, vandermonde.rowCount, vandermonde.colCount)
    ensures r.Ok? && fresh(r.value) && fresh(r.value.data) && r.value.Valid() && r.value.field == vandermonde.field
    ensures r.value.rowCount == vandermonde.rowCount && r.value.colCount == vandermonde.colCount
    ensures VandermondeCode(r.value.field, r.value.Rows(), r.value.rowCount, r.value.colCount)
    ensures Systematic(r.value.field, r.value.Rows(), r.value.colCount)
    ensures IsMds(r.value.field, r.value.Rows(), r.value.rowCount, r.value.colCount)
  {
    ghost var f, n, k := vandermonde.field, vandermonde.rowCount, vandermonde.colCount;
    var inverted := InvertTop(vandermonde, byteRows);
    if inverted.Err? {
      return Err(InvalidCustomMatrix);
    }
    VandermondeTop(f, n, k);
    SystematicProduct(f, vandermonde.Rows(), inverted.value.Rows(), n, k);
    var product := MultiplyTopInverse(vandermonde, inverted.value);
    if product.Err? {
      return Err(InvalidCustomMatrix);
    }
    r := Ok(product.value);
  }

  method BuildInWorkspace<E(==, !new)>(vandermonde: Matrix<E>, byteRows: bool) returns (r: Result<Matrix<E>, BuildError>)
    requires vandermonde.Valid() && vandermonde.colCount <= vandermonde.rowCount <= vandermonde.field.order
    requires vandermonde.Rows() == VandermondeRows(vandermonde.field, vandermonde.rowCount, vandermonde.colCount)
    ensures r.Ok? && fresh(r.value) && fresh(r.value.data) && r.value.Valid() && r.value.field == vandermonde.field
    ensures r.value.rowCount == vandermonde.rowCount && r.value.colCount == vandermonde.colCount
    ensures VandermondeCode(r.value.field, r.value.Rows(), r.value.rowCount, r.value.colCount)
    ensures Systematic(r.value.field, r.value.Rows(), r.value.colCount)
    ensures IsMds(r.value.field, r.value.Rows(), r.value.rowCount, r.value.colCount)
  {
    ghost var f, n, k := vandermonde.field, vandermonde.rowCount, vandermonde.colCount;
    VandermondeTop(f, n, k);
    var built := SystematicFromVandermonde(vandermonde, byteRows);
    if built.Err? {
      return Err(InvalidCustomMatrix);
    }
    ghost var v := VandermondeRows(f, n, k);
    ghost var b :| AreInverse(f, v[..k], b, k) && built.value.Rows() == MatMul(f, v, b, k);
    SystematicProduct(f, v, b, n, k);
    r := Ok(built.value);
  }

  // ----- Cauchy

  method BuildCauchyMatrix<E(==, !new)>(f: Field<E>, k: nat, n: nat) returns (r: Result<Matrix<E>, BuildError>)
    requires f.Valid() && k <= n <= f.order
    ensures r.Ok? && fresh(r.value) && fresh(r.value.data) && r.value.Valid() && r.value.field == f
    ensures r.value.rowCount == n && r.value.colCount == k
    ensures r.value.Rows() == CauchyMatrix(f, n, k)
    ensures Systematic(f, r.value.Rows(), k) && IsMds(f, r.value.Rows(), n, k)
  {
    hide Overlaid, RowsOf, Unit, Zeros, CauchyRow, CauchyMatrix, Systematic, IsMds, Field.Valid;
    var m := new Matrix(f, n, k);
    ghost var goal, zeros := CauchyMatrix(f, n, k), m.Rows();
    OverlaidEnds(goal, zeros);
    for row := 0 to n
      invariant m.Rows() == Overlaid(goal, zeros, row)
    {
      OverlaidStep(goal, zeros, row);
      if row < k {
        m.Set(row, row, f.one);
        UnitFromZeros(f, k, row);
      } else {
        ghost var done := m.Rows();
        OverlaidEnds(CauchyRow(f, row, k), done[row]);
        for c := 0 to k
          invariant m.Rows() == done[row := Overlaid(CauchyRow(f, row, k), done[row], c)]
        {
          OverlaidStep(CauchyRow(f, row, k), done[row], c);
          var denominator := f.Add(f.Nth(row), f.Nth(c));
          f.Distinct(row, c);
          if denominator == f.zero {
            return Err(InvalidCustomMatrix);
          }
          m.Set(row, c, f.Div(f.one, denominator));
        }
      }
    }
    CauchyMds(f, n, k);
    CauchySystematic(f, n, k);
    r := Ok(m);
  }

  lemma UnitFromZeros<E(!new)>(f: Field<E>, k: nat, at: nat)
    requires at < k
    ensures Zeros(f, k)[at := f.one] == Unit(f, k, at)
  {
  }

  lemma CauchySystematic<E(!new)>(f: Field<E>, n: nat, k: nat)
    requires k <= n
    ensures Systematic(f, CauchyMatrix(f, n, k), k)
  {
  }

  // ----- single parity

  method BuildOneParityMatrix<E(==, !new)>(f: Field<E>, k: nat) returns (m: Matrix<E>)
    requires f.Valid()
    ensures fresh(m) && fresh(m.data) && m.Valid() && m.field == f && m.rowCount == k + 1 && m.colCount == k
    ensures m.Rows() == OneParityMatrix(f, k)
    ensures Systematic(f, m.Rows(), k) && IsMds(f, m.Rows(), k + 1, k)
  {
    m := new Matrix(f, k + 1, k);
    for col := 0 to k
      invariant forall i :: 0 <= i < col ==> m.Rows()[i] == Unit(f, k, i)
      invariant forall i :: col <= i < k ==> m.Rows()[i] == Zeros(f, k)
      invariant forall j :: 0 <= j < col ==> m.Rows()[k][j] == f.one
    {
      m.Set(col, col, f.one);
      m.Set(k, col, f.one);
      assert m.Rows()[col] == Unit(f, k, col);
    }
    assert m.Rows()[k] == Ones(f, k);
    assert m.Rows() == OneParityMatrix(f, k);
    OneParityMds(f, k);
  }

  // ----- user-supplied parity rows

  /** Ones on the diagonal of the leading square block of a zero matrix. */
  method FillIdentity<E(==, !new)>(m: Matrix<E>)
    requires m.Valid() && m.colCount <= m.rowCount
    requires forall i :: 0 <= i < m.rowCount ==> m.Rows()[i] == Zeros(m.field, m.colCount)
    modifies m.data
    ensures forall i :: 0 <= i < m.colCount ==> m.Rows()[i] == Unit(m.field, m.colCount, i)
    ensures forall i :: m.colCount <= i < m.rowCount ==> m.Rows()[i] == Zeros(m.field, m.colCount)
  {
    for row := 0 to m.colCount
      invariant forall i :: 0 <= i < row ==> m.Rows()[i] == Unit(m.field, m.colCount, i)
      invariant forall i :: row <= i < m.rowCount ==> m.Rows()[i] == Zeros(m.field, m.colCount)
    {
      m.Set(row, row, m.field.one);
      assert m.Rows()[row] == Unit(m.field, m.colCount, row);
    }
  }

  /** Sets row `r` to the first values of a row that is at least as long. */
  method SetRow<E(==, !new)>(m: Matrix<E>, r: nat, values: seq<E>)
    requires m.Valid() && r < m.rowCount && m.colCount <= |values|
    modifies m.data
    ensures m.Rows() == old(m.Rows())[r := values[..m.colCount]]
  {
    assert Patch(m.Rows()[r], 0, values[..m.colCount]) == values[..m.colCount];
    m.SetEntries(r, 0, values[..m.colCount]);
  }

  method BuildCustomMatrix<E(==, !new)>(f: Field<E>, k: nat, n: nat, custom: seq<seq<E>>) returns (r: Result<Matrix<E>, BuildError>)
    requires f.Valid() && k <= n
    ensures r.Ok? <==> n - k <= |custom| && forall i :: 0 <= i < n - k ==> k <= |custom[i]|
    ensures r.Err? ==> r.error == InvalidCustomMatrix
    ensures r.Ok? ==> fresh(r.value) && fresh(r.value.data) && r.value.Valid() && r.value.field == f
    ensures r.Ok? ==> r.value.rowCount == n && r.value.colCount == k
    ensures r.Ok? ==> Systematic(f, r.value.Rows(), k)
    ensures r.Ok? ==> forall i :: k <= i < n ==> r.value.Rows()[i] == custom[i - k][..k]
  {
    var parity := n - k;
    if |custom| < parity {
      return Err(InvalidCustomMatrix);
    }
    for i := 0 to parity
      invariant forall t :: 0 <= t < i ==> k <= |custom[t]|
    {
      if |custom[i]| < k {
        return Err(InvalidCustomMatrix);
      }
    }
    var m := new Matrix(f, n, k);
    FillIdentity(m);
    for offset := 0 to parity
      invariant forall i :: 0 <= i < k ==> m.Rows()[i] == Unit(f, k, i)
      invariant forall i :: 0 <= i < offset ==> m.Rows()[k + i] == custom[i][..k]
    {
      SetRow(m, k + offset, custom[offset]);
    }
    assert forall i :: k <= i < n ==> m.Rows()[i] == m.Rows()[k + (i - k)];
    r := Ok(m);
  }
}
