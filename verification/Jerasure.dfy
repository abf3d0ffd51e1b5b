/** The Jerasure-like builder: column elimination of an extended Vandermonde matrix. */
module JerasureBuilder {
  import opened Outcomes
  import opened Fields
  import opened Vectors
  import opened Kernels
  import opened Mds
  import opened Slices
  import opened ColumnOps
  import opened Matrices
  import opened Builders
  import opened JerasureForms

  /** The first `i` rows are unit rows. */
  ghost predicate LeadingUnits<E(!new)>(f: Field<E>, m: seq<seq<E>>, k: nat, i: nat) {
    IsMatrix(m, |m|, k) && i <= k && i <= |m| && forall r :: 0 <= r < i ==> m[r] == Unit(f, k, r)
  }

  /** Positions of a row other than `i` and before `j` are zero, position `i` is one. */
  ghost predicate RowReduced<E(!new)>(f: Field<E>, row: seq<E>, i: nat, j: nat) {
    && i < |row| && j <= |row| && row[i] == f.one
    && forall l :: 0 <= l < j && l != i ==> row[l] == f.zero
  }

  /** The ones-headed shape that the two normalization loops establish. */
  ghost predicate JerasureShape<E(!new)>(f: Field<E>, m: seq<seq<E>>, n: nat, k: nat) {
    && 0 < k < n && IsMatrix(m, n, k)
    && Systematic(f, m, k)
    && m[k] == Ones(f, k)
    && forall r :: k <= r < n ==> m[r][0] == f.one
  }

  /** With distinct evaluation points, how the matrix came from the extended Vandermonde matrix. */
  ghost predicate Traced<E(!new)>(f: Field<E>, m: seq<seq<E>>, n: nat, k: nat, i: nat, busy: bool)
    requires 0 < k < n
  {
    InteriorNonZero(f, n) ==> m in Forms(f, ExtendedVandermonde(f, n, k), k, i, busy)
  }

  lemma ScaleColUnits<E(!new)>(f: Field<E>, m: seq<seq<E>>, k: nat, i: nat, c: E)
    requires f.Valid() && LeadingUnits(f, m, k, i) && i < k && i < |m|
    ensures LeadingUnits(f, ScaleCol(f, m, k, i, c, 0), k, i)
  {
    f.Laws(c, f.zero, f.zero);
    forall r | 0 <= r < i ensures ScaleCol(f, m, k, i, c, 0)[r] == Unit(f, k, r) {
      assert m[r][i] == f.zero;
    }
  }

  lemma AddColUnits<E(!new)>(f: Field<E>, m: seq<seq<E>>, k: nat, i: nat, j: nat)
    requires f.Valid() && LeadingUnits(f, m, k, i) && i < k && i < |m| && j < k && j != i
    requires RowReduced(f, m[i], i, j)
    ensures var t := AddCol(f, m, k, i, j, m[i][j]);
            LeadingUnits(f, t, k, i) && RowReduced(f, t[i], i, j + 1)
  {
    var v := m[i][j];
    f.Laws(v, f.zero, f.zero);
    f.Laws(v, v, v);
    forall r | 0 <= r < i ensures AddCol(f, m, k, i, j, v)[r] == Unit(f, k, r) {
      assert m[r][i] == f.zero;
      f.Laws(m[r][j], f.zero, f.zero);
    }
  }

  method ScaleColumn<E(==, !new)>(vm: Matrix<E>, j: nat, scale: E, from: nat)
    requires vm.Valid() && j < vm.colCount && from <= vm.rowCount
    modifies vm.data
    ensures vm.Rows() == ScaleCol(vm.field, old(vm.Rows()), vm.colCount, j, scale, from)
  {
    ghost var was := vm.Rows();
    for row := from to vm.rowCount
      invariant vm.Rows() == seq(vm.rowCount, i requires 0 <= i < vm.rowCount =>
        if from <= i < row then was[i][j := vm.field.Mul(was[i][j], scale)] else was[i])
    {
      var v := vm.Get(row, j);
      vm.Set(row, j, vm.field.Mul(v, scale));
    }
  }

  method AddColumn<E(==, !new)>(vm: Matrix<E>, i: nat, j: nat, value: E)
    requires vm.Valid() && i < vm.colCount && j < vm.colCount && i != j
    modifies vm.data
    ensures vm.Rows() == AddCol(vm.field, old(vm.Rows()), vm.colCount, i, j, value)
  {
    ghost var was := vm.Rows();
    for row := 0 to vm.rowCount
      invariant vm.Rows() == seq(vm.rowCount, t requires 0 <= t < vm.rowCount =>
        if t < row then was[t][j := vm.field.Add(was[t][j], vm.field.Mul(value, was[t][i]))] else was[t])
    {
      var target := vm.Get(row, j);
      var source := vm.Get(row, i);
      vm.Set(row, j, vm.field.Add(target, vm.field.Mul(value, source)));
    }
  }

  method ScaleWholeRow<E(==, !new)>(vm: Matrix<E>, row: nat, scale: E)
    requires vm.Valid() && row < vm.rowCount
    modifies vm.data
    ensures vm.Rows() == ScaleRow(vm.field, old(vm.Rows()), row, scale)
  {
    hide Overlaid, Scale, Field.Valid;
    ghost var was := vm.Rows();
    ghost var scaled := Scale(vm.field, scale, was[row]);
    OverlaidEnds(scaled, was[row]);
    for col := 0 to vm.colCount
      invariant vm.Rows() == was[row := Overlaid(scaled, was[row], col)]
    {
      var v := vm.Get(row, col);
      vm.field.Laws(v, scale, v);
      vm.Set(row, col, vm.field.Mul(v, scale));
      OverlaidStep(scaled, was[row], col);
    }
  }

  /** The Vandermonde matrix with its first and last rows overwritten. */
  method ExtendedStart<E(==, !new)>(f: Field<E>, k: nat, n: nat) returns (vm: Matrix<E>)
    requires f.Valid() && 0 < k < n
    ensures fresh(vm) && fresh(vm.data) && vm.Valid() && vm.field == f && vm.rowCount == n && vm.colCount == k
    ensures vm.Rows() == ExtendedVandermonde(f, n, k)
  {
    hide Overlaid, Unit, VandermondeRows, Field.Valid;
    vm := Matrix.Vandermonde(f, n, k);
    ghost var v, first, last := vm.Rows(), Unit(f, k, 0), Unit(f, k, k - 1);
    OverlaidEnds(first, v[0]);
    OverlaidStep(first, v[0], 0);
    vm.Set(0, 0, f.one);
    for i := 1 to k
      invariant vm.Rows() == v[0 := Overlaid(first, v[0], i)]
    {
      OverlaidStep(first, v[0], i);
      vm.Set(0, i, f.zero);
    }
    ghost var w := vm.Rows();
    OverlaidEnds(last, w[n - 1]);
    for i := 0 to k - 1
      invariant vm.Rows() == w[n - 1 := Overlaid(last, w[n - 1], i)]
    {
      OverlaidStep(last, w[n - 1], i);
      vm.Set(n - 1, i, f.zero);
    }
    OverlaidStep(last, w[n - 1], k - 1);
    vm.Set(n - 1, k - 1, f.one);
  }

  /** Brings a nonzero entry of column `i` to row `i`.  The scan never leaves the matrix and the
      error branch is never taken; with distinct evaluation points no rows are exchanged. */
  method PivotColumn<E(==, !new)>(vm: Matrix<E>, i: nat, ghost good: bool) returns (r: Result<(), BuildError>)
    requires vm.Valid() && i < vm.colCount < vm.rowCount <= vm.field.order
    requires vm.Rows() in Keepers(vm.field, vm.rowCount, vm.colCount, good) && LeadingUnits(vm.field, vm.Rows(), vm.colCount, i)
    requires Traced(vm.field, vm.Rows(), vm.rowCount, vm.colCount, i, false)
    modifies vm.data
    ensures r.Ok?
    ensures vm.Rows() in Keepers(vm.field, vm.rowCount, vm.colCount, good) && LeadingUnits(vm.field, vm.Rows(), vm.colCount, i)
    ensures Traced(vm.field, vm.Rows(), vm.rowCount, vm.colCount, i, false)
    ensures InteriorNonZero(vm.field, vm.rowCount) ==> vm.Rows() == old(vm.Rows())
    ensures vm.Rows()[i][i] != vm.field.zero
  {
    hide Keepers, Traced, InteriorNonZero, LeadingUnits, Field.Valid;
    ghost var was := vm.Rows();
    PivotRow(vm.field, was, vm.rowCount, vm.colCount, i, good);
    var row := i;
    var entry := vm.Get(row, i);
    while entry == vm.field.zero
      invariant i <= row < vm.rowCount && vm.Rows() == was && entry == was[row][i]
      invariant forall t :: i <= t < row ==> was[t][i] == vm.field.zero
      decreases vm.rowCount - row
    {
      row := row + 1;
      entry := vm.Get(row, i);
    }
    if row != i {
      SwapKeeps(vm.field, was, vm.colCount, row, i, good);
      SwapLeading(vm.field, was, vm.rowCount, vm.colCount, i, row);
      vm.SwapRowsInPlace(row, i);
    } else if entry == vm.field.zero {
      return Err(InvalidCustomMatrix);
    }
    r := Ok(());
  }

  lemma PivotRow<E(!new)>(f: Field<E>, m: seq<seq<E>>, n: nat, k: nat, i: nat, good: bool)
    requires f.Valid() && i < k < n <= f.order && |m| == n && IsMatrix(m, n, k)
    requires m in Keepers(f, n, k, good) && LeadingUnits(f, m, k, i) && Traced(f, m, n, k, i, false)
    ensures exists r :: i <= r < n && m[r][i] != f.zero
    ensures InteriorNonZero(f, n) ==> m[i][i] != f.zero
  {
    PivotExists(f, m, k, i, good);
    if InteriorNonZero(f, n) {
      PivotNonZero(f, n, k, m, i);
    }
  }

  lemma SwapLeading<E(!new)>(f: Field<E>, m: seq<seq<E>>, n: nat, k: nat, i: nat, row: nat)
    requires i < row < |m| == n && 0 < k < n && LeadingUnits(f, m, k, i)
    ensures LeadingUnits(f, SwapRows(m, row, i), k, i)
    ensures !InteriorNonZero(f, n) ==> Traced(f, SwapRows(m, row, i), n, k, i, false)
  {
  }

  /** Turns row `i` into a unit row by column operations. */
  method ReduceColumn<E(==, !new)>(vm: Matrix<E>, i: nat, ghost good: bool) returns (r: Result<(), BuildError>)
    requires vm.Valid() && i < vm.colCount < vm.rowCount <= vm.field.order
    requires vm.Rows() in Keepers(vm.field, vm.rowCount, vm.colCount, good) && LeadingUnits(vm.field, vm.Rows(), vm.colCount, i)
    requires Traced(vm.field, vm.Rows(), vm.rowCount, vm.colCount, i, false)
    modifies vm.data
    ensures r.Ok?
    ensures vm.Rows() in Keepers(vm.field, vm.rowCount, vm.colCount, good) && LeadingUnits(vm.field, vm.Rows(), vm.colCount, i + 1)
    ensures Traced(vm.field, vm.Rows(), vm.rowCount, vm.colCount, i + 1, false)
  {
    hide Keepers, Field.Valid, Traced;
    var f, k := vm.field, vm.colCount;
    var pivoted := PivotColumn(vm, i, good);
    if pivoted.Err? {
      return pivoted;
    }
    NormalizePivot(vm, i, good);
    for j := 0 to k
      invariant vm.Rows() in Keepers(f, vm.rowCount, k, good) && LeadingUnits(f, vm.Rows(), k, i)
      invariant RowReduced(f, vm.Rows()[i], i, j) && Traced(f, vm.Rows(), vm.rowCount, k, i, true)
    {
      var value := vm.Get(i, j);
      if j != i && value != f.zero {
        AddColKeeps(f, vm.Rows(), k, i, j, value, good);
        AddColUnits(f, vm.Rows(), k, i, j);
        AddColTraced(f, vm.Rows(), vm.rowCount, k, i, j, value);
        AddColumn(vm, i, j, value);
      }
    }
    assert vm.Rows()[i] == Unit(f, k, i);
    NextTraced(f, vm.Rows(), vm.rowCount, k, i);
    r := Ok(());
  }

  lemma AddColTraced<E(!new)>(f: Field<E>, m: seq<seq<E>>, n: nat, k: nat, i: nat, j: nat, c: E)
    requires f.Valid() && 0 < k < n && i < k && j < k && i != j && IsMatrix(m, n, k) && Traced(f, m, n, k, i, true)
    ensures Traced(f, AddCol(f, m, k, i, j, c), n, k, i, true)
  {
    if InteriorNonZero(f, n) {
      AddForms(f, ExtendedVandermonde(f, n, k), m, k, i, j, c);
    }
  }

  lemma NextTraced<E(!new)>(f: Field<E>, m: seq<seq<E>>, n: nat, k: nat, i: nat)
    requires 0 < k < n && i < k && Traced(f, m, n, k, i, true)
    ensures Traced(f, m, n, k, i + 1, false)
  {
    if InteriorNonZero(f, n) {
      NextForms(f, ExtendedVandermonde(f, n, k), m, k, i);
    }
  }

  lemma PivotTraced<E(!new)>(f: Field<E>, m: seq<seq<E>>, n: nat, k: nat, i: nat, c: E)
    requires f.Valid() && 0 < k < n && i < k && c != f.zero && IsMatrix(m, n, k) && Traced(f, m, n, k, i, false)
    ensures Traced(f, m, n, k, i, true) && Traced(f, ScaleCol(f, m, k, i, c, 0), n, k, i, true)
  {
    if InteriorNonZero(f, n) {
      UnscaledForms(f, ExtendedVandermonde(f, n, k), m, k, i);
      ScaleForms(f, ExtendedVandermonde(f, n, k), m, k, i, c);
    }
  }

  /** Scales column `i` so that its pivot is one. */
  method NormalizePivot<E(==, !new)>(vm: Matrix<E>, i: nat, ghost good: bool)
    requires vm.Valid() && i < vm.colCount < vm.rowCount
    requires vm.Rows() in Keepers(vm.field, vm.rowCount, vm.colCount, good) && LeadingUnits(vm.field, vm.Rows(), vm.colCount, i)
    requires vm.Rows()[i][i] != vm.field.zero && Traced(vm.field, vm.Rows(), vm.rowCount, vm.colCount, i, false)
    modifies vm.data
    ensures vm.Rows() in Keepers(vm.field, vm.rowCount, vm.colCount, good) && LeadingUnits(vm.field, vm.Rows(), vm.colCount, i)
    ensures vm.Rows()[i][i] == vm.field.one && Traced(vm.field, vm.Rows(), vm.rowCount, vm.colCount, i, true)
  {
    hide Traced;
    var f := vm.field;
    var diagonal := vm.Get(i, i);
    var scale := if diagonal != f.one then f.Div(f.one, diagonal) else f.one;
    f.InverseNonZero(diagonal);
    PivotTraced(f, vm.Rows(), vm.rowCount, vm.colCount, i, f.Div(f.one, diagonal));
    if scale != f.one {
      ScaleColKeeps(f, vm.Rows(), vm.colCount, i, scale, good);
      ScaleColUnits(f, vm.Rows(), vm.colCount, i, scale);
      ScaleColumn(vm, i, scale, 0);
    } else {
      f.Laws(f.one, diagonal, f.one);
      f.Laws(diagonal, f.one, f.one);
    }
  }

  /** The parity part of `g` is that of `h` with its first `j` columns divided by their head. */
  ghost predicate ColumnsDivided<E(!new)>(f: Field<E>, h: seq<seq<E>>, g: seq<seq<E>>, k: nat, j: nat) {
    && k < |h| && j <= k && IsMatrix(h, |h|, k) && IsMatrix(g, |h|, k)
    && (forall l :: 0 <= l < j ==> g[k][l] == f.one)
    && (forall r, l :: k <= r < |h| && 0 <= l < j ==> f.Mul(g[r][l], h[k][l]) == h[r][l])
    && (forall r, l :: k <= r < |h| && j <= l < k ==> g[r][l] == h[r][l])
  }

  lemma ColumnsStart<E(!new)>(f: Field<E>, h: seq<seq<E>>, k: nat)
    requires k < |h| && IsMatrix(h, |h|, k)
    ensures ColumnsDivided(f, h, h, k, 0)
  {
  }

  /** One column, divided by its head or already headed by one. */
  lemma ColumnsStep<E(!new)>(f: Field<E>, h: seq<seq<E>>, g: seq<seq<E>>, k: nat, j: nat)
    requires f.Valid() && ColumnsDivided(f, h, g, k, j) && j < k && g[k][j] != f.zero
    ensures g[k][j] == f.one ==> ColumnsDivided(f, h, g, k, j + 1)
    ensures ColumnsDivided(f, h, ScaleCol(f, g, k, j, f.Div(f.one, g[k][j]), k), k, j + 1)
  {
    var c, d := g[k][j], f.Div(f.one, g[k][j]);
    f.InverseNonZero(c);
    forall r | k <= r < |h| ensures f.Mul(f.Mul(g[r][j], d), c) == g[r][j] && f.Mul(g[r][j], f.one) == g[r][j] {
      f.Laws(g[r][j], d, c);
    }
  }

  /** The parity rows of `g` before row `upto` are those of `p` divided by their head. */
  ghost predicate RowsDivided<E(!new)>(f: Field<E>, p: seq<seq<E>>, g: seq<seq<E>>, k: nat, upto: nat) {
    && 0 < k < |p| && k <= upto <= |p| && IsMatrix(p, |p|, k) && IsMatrix(g, |p|, k)
    && (forall r, l :: k <= r < upto && 0 <= l < k ==> f.Mul(g[r][l], p[r][0]) == p[r][l])
    && (forall r :: upto <= r < |p| ==> g[r] == p[r])
  }

  lemma RowsStart<E(!new)>(f: Field<E>, p: seq<seq<E>>, k: nat)
    requires f.Valid() && 0 < k < |p| && IsMatrix(p, |p|, k) && p[k] == Ones(f, k)
    ensures RowsDivided(f, p, p, k, k + 1)
  {
    f.Laws(f.one, f.one, f.one);
  }

  /** One row, divided by its head or already headed by one. */
  lemma RowsStep<E(!new)>(f: Field<E>, p: seq<seq<E>>, g: seq<seq<E>>, k: nat, row: nat)
    requires f.Valid() && RowsDivided(f, p, g, k, row) && row < |p| && g[row][0] != f.zero
    ensures g[row][0] == f.one ==> RowsDivided(f, p, g, k, row + 1)
    ensures RowsDivided(f, p, ScaleRow(f, g, row, f.Div(f.one, g[row][0])), k, row + 1)
  {
    var c, d := g[row][0], f.Div(f.one, g[row][0]);
    f.InverseNonZero(c);
    forall l | 0 <= l < k ensures f.Mul(f.Mul(d, g[row][l]), c) == g[row][l] && f.Mul(g[row][l], f.one) == g[row][l] {
      f.Laws(d, g[row][l], c);
      f.Laws(g[row][l], d, c);
    }
  }

  lemma KeptNonZero<E(!new)>(f: Field<E>, m: seq<seq<E>>, k: nat, row: nat, j: nat)
    requires f.Valid() && m in Keepers(f, |m|, k, true) && Systematic(f, m, k) && k <= row < |m| && j < k
    ensures m[row][j] != f.zero
  {
    ParityNonZero(f, m, k, row, j);
  }

  /** Makes the first parity row all ones; only a repeated evaluation point can prevent it. */
  method NormalizeFirstParity<E(==, !new)>(vm: Matrix<E>, ghost good: bool) returns (r: Result<(), BuildError>)
    requires vm.Valid() && 0 < vm.colCount < vm.rowCount
    requires vm.Rows() in Keepers(vm.field, vm.rowCount, vm.colCount, good) && Systematic(vm.field, vm.Rows(), vm.colCount)
    modifies vm.data
    ensures good ==> r.Ok?
    ensures vm.Rows() in Keepers(vm.field, vm.rowCount, vm.colCount, good) && Systematic(vm.field, vm.Rows(), vm.colCount)
    ensures r.Ok? ==> vm.Rows()[vm.colCount] == Ones(vm.field, vm.colCount)
    ensures r.Ok? ==> ColumnsDivided(vm.field, old(vm.Rows()), vm.Rows(), vm.colCount, vm.colCount)
  {
    hide Keepers, Systematic, ColumnsDivided;
    var f, k := vm.field, vm.colCount;
    ghost var h := vm.Rows();
    ColumnsStart(f, h, k);
    for j := 0 to k
      invariant vm.Rows() in Keepers(f, vm.rowCount, k, good) && Systematic(f, vm.Rows(), k)
      invariant ColumnsDivided(f, h, vm.Rows(), k, j)
    {
      var value := vm.Get(k, j);
      if value == f.zero {
        if good {
          KeptNonZero(f, vm.Rows(), k, k, j);
        }
        return Err(InvalidCustomMatrix);
      }
      ColumnsStep(f, h, vm.Rows(), k, j);
      if value != f.one {
        var scale := f.Div(f.one, value);
        f.InverseNonZero(value);
        ScaleParityColKeeps(f, vm.Rows(), k, j, scale, good);
        ScaleColumn(vm, j, scale, k);
      }
    }
    HeadDone(f, h, vm.Rows(), k);
    r := Ok(());
  }

  lemma HeadDone<E(!new)>(f: Field<E>, h: seq<seq<E>>, g: seq<seq<E>>, k: nat)
    requires ColumnsDivided(f, h, g, k, k)
    ensures g[k] == Ones(f, k)
  {
  }

  /** Gives every later parity row a leading one. */
  method NormalizeFirstColumn<E(==, !new)>(vm: Matrix<E>, ghost good: bool) returns (r: Result<(), BuildError>)
    requires vm.Valid() && 0 < vm.colCount < vm.rowCount
    requires vm.Rows() in Keepers(vm.field, vm.rowCount, vm.colCount, good) && Systematic(vm.field, vm.Rows(), vm.colCount)
    requires vm.Rows()[vm.colCount] == Ones(vm.field, vm.colCount)
    modifies vm.data
    ensures good ==> r.Ok?
    ensures vm.Rows() in Keepers(vm.field, vm.rowCount, vm.colCount, good)
    ensures r.Ok? ==> JerasureShape(vm.field, vm.Rows(), vm.rowCount, vm.colCount)
    ensures r.Ok? ==> RowsDivided(vm.field, old(vm.Rows()), vm.Rows(), vm.colCount, vm.rowCount)
  {
    hide RowsDivided, Keepers, Field.Valid;
    var f, k := vm.field, vm.colCount;
    ghost var p := vm.Rows();
    RowsStart(f, p, k);
    for row := k + 1 to vm.rowCount
      invariant vm.Rows() in Keepers(f, vm.rowCount, k, good) && Systematic(f, vm.Rows(), k)
      invariant vm.Rows()[k] == Ones(f, k) && RowsDivided(f, p, vm.Rows(), k, row)
      invariant forall t :: k <= t < row ==> vm.Rows()[t][0] == f.one
    {
      var value := vm.Get(row, 0);
      if value == f.zero {
        if good {
          KeptNonZero(f, vm.Rows(), k, row, 0);
        }
        return Err(InvalidCustomMatrix);
      }
      RowsStep(f, p, vm.Rows(), k, row);
      if value != f.one {
        var scale := f.Div(f.one, value);
        f.InverseNonZero(value);
        ScaleRowKeeps(f, vm.Rows(), k, row, scale, good);
        ScaleWholeRow(vm, row, scale);
      }
    }
    r := Ok(());
  }

  /** The two normalizations together. */
  lemma DividedCode<E(!new)>(f: Field<E>, h: seq<seq<E>>, p: seq<seq<E>>, g: seq<seq<E>>, n: nat, k: nat)
    requires f.Valid() && 0 < k < n && |h| == n && DividesTop(f, ExtendedVandermonde(f, n, k), h, k)
    requires ColumnsDivided(f, h, p, k, k) && RowsDivided(f, p, g, k, n)
    ensures JerasureCode(f, g, n, k)
  {
    forall r, j | k <= r < n && 0 <= j < k
      ensures f.Mul(g[r][j], f.Mul(h[r][0], h[k][j])) == f.Mul(h[r][j], h[k][0])
    {
      ScaledTwice(f, h[r][j], h[k][j], h[r][0], h[k][0], p[r][j], p[r][0], g[r][j]);
    }
    assert OnesHeaded(f, h, g, n, k);
  }

  /** The whole construction.  It yields an MDS code exactly when no interior evaluation point
      repeats the point zero of the first row, or there is a single data shard; its coefficients
      are then those of the extended Vandermonde code, headed by ones. */
  method BuildJerasureLikeMatrix<E(==, !new)>(f: Field<E>, k: nat, n: nat) returns (r: Result<Matrix<E>, BuildError>)
    requires f.Valid() && 0 < k < n <= f.order
    ensures r.Err? ==> r.error == InvalidCustomMatrix
    ensures r.Ok? ==> fresh(r.value) && fresh(r.value.data) && r.value.Valid() && r.value.field == f
    ensures r.Ok? ==> r.value.rowCount == n && r.value.colCount == k
    ensures r.Ok? ==> JerasureShape(f, r.value.Rows(), n, k)
    ensures k == 1 || InteriorNonZero(f, n) <==> r.Ok? && IsMds(f, r.value.Rows(), n, k)
    ensures InteriorNonZero(f, n) ==> JerasureCode(f, r.value.Rows(), n, k)
  {
    hide Keepers, LeadingUnits, Traced, DividesTop, JerasureCode, ColumnsDivided, RowsDivided, InteriorNonZero, IsMds;
    ghost var good := k == 1 || InteriorNonZero(f, n);
    var vm := ExtendedStart(f, k, n);
    ExtendedVandermondeKept(f, n, k);
    EliminationStart(f, n, k);
    for i := 0 to k
      invariant vm.Rows() in Keepers(f, vm.rowCount, k, good) && LeadingUnits(f, vm.Rows(), k, i)
      invariant Traced(f, vm.Rows(), n, k, i, false)
    {
      var reduced := ReduceColumn(vm, i, good);
      if reduced.Err? {
        return Err(InvalidCustomMatrix);
      }
    }
    EliminationEnd(f, vm.Rows(), n, k);
    ghost var h := vm.Rows();
    var parity := NormalizeFirstParity(vm, good);
    if parity.Err? {
      return Err(InvalidCustomMatrix);
    }
    ghost var p := vm.Rows();
    var column := NormalizeFirstColumn(vm, good);
    if column.Err? {
      return Err(InvalidCustomMatrix);
    }
    KeptDecides(f, vm.Rows(), k, good);
    if InteriorNonZero(f, n) {
      DividedCode(f, h, p, vm.Rows(), n, k);
    }
    r := Ok(vm);
  }

  lemma EliminationStart<E(!new)>(f: Field<E>, n: nat, k: nat)
    requires f.Valid() && 0 < k < n
    ensures LeadingUnits(f, ExtendedVandermonde(f, n, k), k, 0)
    ensures Traced(f, ExtendedVandermonde(f, n, k), n, k, 0, false)
  {
    FormsStart(f, ExtendedVandermonde(f, n, k), k);
  }

  lemma EliminationEnd<E(!new)>(f: Field<E>, m: seq<seq<E>>, n: nat, k: nat)
    requires f.Valid() && 0 < k < n && |m| == n && LeadingUnits(f, m, k, k) && Traced(f, m, n, k, k, false)
    ensures Systematic(f, m, k)
    ensures InteriorNonZero(f, n) ==> DividesTop(f, ExtendedVandermonde(f, n, k), m, k)
  {
    if InteriorNonZero(f, n) {
      FormsEnd(f, ExtendedVandermonde(f, n, k), m, k);
    }
  }

  /** There is only one matrix with these coefficients and this shape. */
  lemma JerasureCodeUnique<E(!new)>(f: Field<E>, g: seq<seq<E>>, g': seq<seq<E>>, b: seq<seq<E>>, n: nat, k: nat)
    requires f.Valid() && 0 < k < n <= f.order && InteriorNonZero(f, n)
    requires AreInverse(f, ExtendedVandermonde(f, n, k)[..k], b, k)
    requires JerasureShape(f, g, n, k) && JerasureCode(f, g, n, k)
    requires JerasureShape(f, g', n, k) && JerasureCode(f, g', n, k)
    ensures g == g'
  {
    hide *;
    TopInverse(f, n, k, b);
    var v := ExtendedVandermonde(f, n, k);
    var h := MatMul(f, v, b, k);
    HeadedByUnique(f, g, b, n, k);
    HeadedByUnique(f, g', b, n, k);
    ExtendedVandermondeMds(f, n, k);
    SystematicProduct(f, v, b, n, k);
    OnesHeadedUnique(f, h, g, g', n, k);
  }

  lemma TopInverse<E(!new)>(f: Field<E>, n: nat, k: nat, b: seq<seq<E>>)
    requires 0 < k < n && AreInverse(f, ExtendedVandermonde(f, n, k)[..k], b, k)
    ensures IsMatrix(ExtendedVandermonde(f, n, k), n, k) && IsMatrix(b, k, k)
    ensures |ExtendedVandermonde(f, n, k)| == n && |b| == k
  {
  }

  lemma HeadedByUnique<E(!new)>(f: Field<E>, g: seq<seq<E>>, b: seq<seq<E>>, n: nat, k: nat)
    requires f.Valid() && JerasureCode(f, g, n, k) && AreInverse(f, ExtendedVandermonde(f, n, k)[..k], b, k)
    ensures OnesHeaded(f, MatMul(f, ExtendedVandermonde(f, n, k), b, k), g, n, k)
  {
    var h :| DividesTop(f, ExtendedVandermonde(f, n, k), h, k) && OnesHeaded(f, h, g, n, k);
    DividedTopUnique(f, ExtendedVandermonde(f, n, k), h, b, n, k);
  }

  lemma OnesHeadedUnique<E(!new)>(f: Field<E>, h: seq<seq<E>>, g: seq<seq<E>>, g': seq<seq<E>>, n: nat, k: nat)
    requires f.Valid() && IsMds(f, h, n, k) && Systematic(f, h, k)
    requires JerasureShape(f, g, n, k) && OnesHeaded(f, h, g, n, k) && JerasureShape(f, g', n, k) && OnesHeaded(f, h, g', n, k)
    ensures g == g'
  {
    forall r, j | k <= r < n && 0 <= j < k ensures g[r][j] == g'[r][j] {
      ParityNonZero(f, h, k, r, 0);
      ParityNonZero(f, h, k, k, j);
      f.NoZeroDivisors(h[r][0], h[k][j]);
      CancelRight(f, g[r][j], g'[r][j], f.Mul(h[r][0], h[k][j]));
    }
    forall r | 0 <= r < n ensures g[r] == g'[r] {
      if r >= k {
        assert forall j :: 0 <= j < k ==> g[r][j] == g'[r][j];
      }
    }
  }

  lemma DividedTopUnique<E(!new)>(f: Field<E>, v: seq<seq<E>>, h: seq<seq<E>>, b: seq<seq<E>>, n: nat, k: nat)
    requires f.Valid() && |v| == n && DividesTop(f, v, h, k) && AreInverse(f, v[..k], b, k)
    ensures h == MatMul(f, v, b, k)
  {
    forall i | 0 <= i < n ensures h[i] == MatMul(f, v, b, k)[i] {
      assert MatMul(f, h, v[..k], k)[i] == v[i];
      CancelRow(f, h[i], v[..k], b);
    }
  }

  lemma CancelRight<E(!new)>(f: Field<E>, a: E, b: E, c: E)
    requires f.Valid() && c != f.zero && f.Mul(a, c) == f.Mul(b, c)
    ensures a == b
  {
    f.Laws(c, a, b);
    f.AddCancel(f.Mul(a, c), f.Mul(b, c));
    f.NoZeroDivisors(f.Add(a, b), c);
    f.AddCancel(a, b);
  }

  lemma KeptDecides<E(!new)>(f: Field<E>, m: seq<seq<E>>, k: nat, good: bool)
    requires f.Valid() && m in Keepers(f, |m|, k, good) && Systematic(f, m, k) && (k == 1 ==> good) && 0 < k
    ensures IsMds(f, m, |m|, k) <==> good
  {
    if !good {
      var a, b :| Twins(f, m, k, a, b);
      TwinsNotMds(f, m, k, a, b);
    }
  }

  /** The built-in fields number zero as element zero, which settles the condition. */
  lemma ZeroFirstSuffices<E(!new)>(f: Field<E>, n: nat)
    requires f.Valid() && n <= f.order && f.Nth(0) == f.zero
    ensures InteriorNonZero(f, n)
  {
    forall i: nat | 1 <= i < n - 1 ensures f.Nth(i) != f.zero {
      assert f.NthLaw(0, i);
    }
  }
}
