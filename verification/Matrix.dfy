/** Row-major matrices: in-place elimination, inversion and products. */
module Matrices {
  import opened Outcomes
  import opened Fields
  import opened Vectors
  import opened Kernels
  import opened Elimination
  import opened Slices
  import opened Polynomials
  import opened Mds

  datatype MatrixError = IncompatibleDimensions | NonSquare | SingularMatrix

  // ----- the row-major layout

  /** Where a row starts in the flat buffer. */
  function RowStart(w: nat, r: nat): nat {
    r * w
  }

  lemma RowBounds(rows: nat, w: nat, r: nat)
    requires r < rows
    ensures 0 <= r * w <= r * w + w <= rows * w
  {
    assert (rows - r - 1) * w >= 0;
    assert rows * w == r * w + w + (rows - r - 1) * w;
  }

  lemma RowsDisjoint(w: nat, r: nat, s: nat)
    requires r != s
    ensures r * w + w <= s * w || s * w + w <= r * w
  {
    if r < s {
      RowBounds(s, w, r);
    } else {
      RowBounds(r, w, s);
    }
  }

  function RowOf<T>(data: seq<T>, rows: nat, w: nat, r: nat): (s: seq<T>)
    requires |data| == rows * w && r < rows
    ensures |s| == w
  {
    RowBounds(rows, w, r);
    data[r * w..r * w + w]
  }

  /** The buffer cut into rows.  Its rows are described by `RowsOfAt` rather than a
      postcondition, to keep index arithmetic out of proofs that do not need it. */
  function RowsOf<T>(data: seq<T>, rows: nat, w: nat): (m: seq<seq<T>>)
    requires |data| == rows * w
    ensures IsMatrix(m, rows, w)
    decreases rows
  {
    if rows == 0 then []
    else
      RowBounds(rows, w, rows - 1);
      RowsOf(data[..(rows - 1) * w], rows - 1, w) + [data[(rows - 1) * w..]]
  }

  lemma {:induction false} RowsOfAt<T>(data: seq<T>, rows: nat, w: nat, r: nat)
    requires |data| == rows * w && r < rows
    ensures RowsOf(data, rows, w)[r] == RowOf(data, rows, w, r)
    decreases rows
  {
    RowBounds(rows, w, rows - 1);
    if r < rows - 1 {
      RowBounds(rows - 1, w, r);
      RowsOfAt(data[..(rows - 1) * w], rows - 1, w, r);
    }
  }

  /** Where the end of a row lies in the buffer. */
  lemma SuffixOf<T>(data: seq<T>, rows: nat, w: nat, r: nat, from: nat)
    requires |data| == rows * w && r < rows && from <= w
    ensures 0 <= r * w <= r * w + w <= |data|
    ensures data[RowStart(w, r) + from..RowStart(w, r) + w] == RowsOf(data, rows, w)[r][from..]
  {
    hide RowsOf;
    RowBounds(rows, w, r);
    RowsOfAt(data, rows, w, r);
  }

  /** Writing inside one row changes that row only. */
  lemma PatchRow<T>(data: seq<T>, rows: nat, w: nat, r: nat, from: nat, v: seq<T>)
    requires |data| == rows * w && r < rows && from + |v| <= w
    ensures r * w + from + |v| <= |data|
    ensures RowsOf(Patch(data, r * w + from, v), rows, w)
         == RowsOf(data, rows, w)[r := Patch(RowsOf(data, rows, w)[r], from, v)]
  {
    RowBounds(rows, w, r);
    RowsOfAt(data, rows, w, r);
    var p := Patch(data, r * w + from, v);
    var old', new' := RowsOf(data, rows, w), RowsOf(p, rows, w);
    forall s | 0 <= s < rows ensures new'[s] == old'[r := Patch(old'[r], from, v)][s] {
      RowsOfAt(data, rows, w, s);
      RowsOfAt(p, rows, w, s);
      RowBounds(rows, w, s);
      if s != r {
        RowsDisjoint(w, r, s);
      }
    }
  }

  lemma PatchFullRow<T>(data: seq<T>, rows: nat, w: nat, r: nat, v: seq<T>)
    requires |data| == rows * w && r < rows && |v| == w
    ensures r * w + w <= |data|
    ensures RowsOf(Patch(data, r * w, v), rows, w) == RowsOf(data, rows, w)[r := v]
  {
    PatchRow(data, rows, w, r, 0, v);
    assert Patch(RowsOf(data, rows, w)[r], 0, v) == v;
  }

  lemma PatchGrows<T>(s: seq<T>, at: nat, values: seq<T>, n: nat)
    requires at + |values| <= |s| && n <= |values|
    ensures Patch(s, at, values[..0]) == s
    ensures n < |values| ==> Patch(s, at, values[..n])[at + n := values[n]] == Patch(s, at, values[..n + 1])
  {
  }

  lemma PatchBoth<T>(s: seq<T>, u: seq<T>, v: seq<T>)
    requires |s| == |u| + |v|
    ensures Patch(Patch(s, 0, u[0..|u|]), |u|, v[0..|v|]) == u + v
  {
  }

  lemma SwapRangesExtends<T>(s: seq<T>, s1: nat, s2: nat, len: nat, t: seq<T>)
    requires s1 + len <= |s| && s2 + len <= |s| && |t| == |s|
    requires s1 + len <= s2 || s2 + len <= s1
    requires forall j :: s1 <= j < s1 + len ==> t[j] == s[j - s1 + s2]
    requires forall j :: s2 <= j < s2 + len ==> t[j] == s[j - s2 + s1]
    requires forall j :: 0 <= j < |s| && !(s1 <= j < s1 + len) && !(s2 <= j < s2 + len) ==> t[j] == s[j]
    ensures t == Patch(Patch(s, s1, s[s2..s2 + len]), s2, s[s1..s1 + len])
  {
    var p := Patch(s, s1, s[s2..s2 + len]);
    forall j | 0 <= j < |s| ensures t[j] == Patch(p, s2, s[s1..s1 + len])[j] {
    }
  }

  lemma SwapSelf<T>(m: seq<T>, r: nat)
    requires r < |m|
    ensures SwapRows(m, r, r) == m
  {
  }

  /** Exchanges two disjoint ranges of a buffer. */
  method SwapRanges<T>(a: array<T>, s1: nat, s2: nat, len: nat)
    requires s1 + len <= a.Length && s2 + len <= a.Length
    requires s1 + len <= s2 || s2 + len <= s1
    modifies a
    ensures a[..] == Patch(Patch(old(a[..]), s1, old(a[s2..s2 + len])), s2, old(a[s1..s1 + len]))
  {
    for i := 0 to len
      invariant forall j :: s1 <= j < s1 + i ==> a[j] == old(a[j - s1 + s2])
      invariant forall j :: s2 <= j < s2 + i ==> a[j] == old(a[j - s2 + s1])
      invariant forall j :: 0 <= j < a.Length && !(s1 <= j < s1 + i) && !(s2 <= j < s2 + i) ==> a[j] == old(a[j])
    {
      a[s1 + i], a[s2 + i] := a[s2 + i], a[s1 + i];
    }
    SwapRangesExtends(old(a[..]), s1, s2, len, a[..]);
  }

  lemma SwapRowsFlat<T>(s: seq<T>, rows: nat, w: nat, r1: nat, r2: nat)
    requires |s| == rows * w && r1 < rows && r2 < rows && r1 != r2
    ensures 0 <= r1 * w <= r1 * w + w <= |s| && 0 <= r2 * w <= r2 * w + w <= |s|
    ensures r1 * w + w <= r2 * w || r2 * w + w <= r1 * w
    ensures RowsOf(Patch(Patch(s, r1 * w, s[r2 * w..r2 * w + w]), r2 * w, s[r1 * w..r1 * w + w]), rows, w)
         == SwapRows(RowsOf(s, rows, w), r1, r2)
  {
    RowBounds(rows, w, r1);
    RowBounds(rows, w, r2);
    RowsDisjoint(w, r1, r2);
    var row1, row2 := RowOf(s, rows, w, r1), RowOf(s, rows, w, r2);
    RowsOfAt(s, rows, w, r1);
    RowsOfAt(s, rows, w, r2);
    PatchFullRow(s, rows, w, r1, row2);
    PatchFullRow(Patch(s, r1 * w, row2), rows, w, r2, row1);
  }

  /** The rectangle of rows `rmin .. rmax` and columns `cmin .. cmax`. */
  function SubRows<T>(m: seq<seq<T>>, rmin: nat, cmin: nat, rmax: nat, cmax: nat): (s: seq<seq<T>>)
    requires rmin <= rmax <= |m| && cmin <= cmax && forall i :: rmin <= i < rmax ==> cmax <= |m[i]|
    ensures IsMatrix(s, rmax - rmin, cmax - cmin)
    ensures forall i {:trigger s[i]} :: 0 <= i < rmax - rmin ==> s[i] == m[rmin + i][cmin..cmax]
  {
    seq(rmax - rmin, i requires 0 <= i < rmax - rmin => m[rmin + i][cmin..cmax])
  }

  class Matrix<E(==, !new)> {
    const field: Field<E>
    const rowCount: nat
    const colCount: nat
    const data: array<E>

    ghost predicate Valid() {
      field.Valid() && data.Length == rowCount * colCount
    }

    /** The matrix as a mathematical value. */
    ghost function Rows(): (m: seq<seq<E>>)
      requires Valid()
      reads data
      ensures |m| == rowCount && IsMatrix(m, rowCount, colCount)
    {
      RowsOf(data[..], rowCount, colCount)
    }

    lemma FieldIsValid()
      requires Valid()
      ensures field.Valid()
    {
    }

    lemma RowLengths()
      requires Valid()
      ensures |Rows()| == rowCount && forall i :: 0 <= i < rowCount ==> |Rows()[i]| == colCount
    {
    }

    /** A zero matrix. */
    constructor (f: Field<E>, rows: nat, cols: nat)
      requires f.Valid()
      ensures Valid() && fresh(data)
      ensures field == f && rowCount == rows && colCount == cols
      ensures Rows() == seq(rows, _ => Zeros(f, cols))
    {
      field := f;
      rowCount := rows;
      colCount := cols;
      data := new E[rows * cols](_ => f.zero);
      new;
      forall r | 0 <= r < rows ensures Rows()[r] == Zeros(f, cols) {
        RowBounds(rows, cols, r);
        RowsOfAt(data[..], rows, cols, r);
      }
    }

    method Get(r: nat, c: nat) returns (v: E)
      requires Valid() && r < rowCount && c < colCount
      ensures v == Rows()[r][c]
    {
      RowBounds(rowCount, colCount, r);
      RowsOfAt(data[..], rowCount, colCount, r);
      v := data[RowStart(colCount, r) + c];
    }

    method Set(r: nat, c: nat, v: E)
      requires Valid() && r < rowCount && c < colCount
      modifies data
      ensures Rows() == old(Rows())[r := old(Rows())[r][c := v]]
    {
      RowBounds(rowCount, colCount, r);
      PatchRow(data[..], rowCount, colCount, r, c, [v]);
      assert Patch(Rows()[r], c, [v]) == Rows()[r][c := v];
      ghost var was := data[..];
      data[RowStart(colCount, r) + c] := v;
      assert data[..] == Patch(was, RowStart(colCount, r) + c, [v]);
    }

    /** Sets consecutive entries of one row. */
    method SetEntries(r: nat, at: nat, values: seq<E>)
      requires Valid() && r < rowCount && at + |values| <= colCount
      modifies data
      ensures Rows() == old(Rows())[r := Patch(old(Rows())[r], at, values)]
    {
      ghost var was := Rows();
      PatchGrows(was[r], at, values, 0);
      for column := 0 to |values|
        invariant Rows() == was[r := Patch(was[r], at, values[..column])]
      {
        PatchGrows(was[r], at, values, column);
        Set(r, at + column, values[column]);
      }
      assert values[..|values|] == values;
    }

    method GetRow(r: nat) returns (row: seq<E>)
      requires Valid() && r < rowCount
      ensures row == Rows()[r]
    {
      RowBounds(rowCount, colCount, r);
      RowsOfAt(data[..], rowCount, colCount, r);
      row := data[RowStart(colCount, r)..RowStart(colCount, r) + colCount];
    }

    /** Exchanges two rows element by element. */
    method SwapRowsInPlace(r1: nat, r2: nat)
      requires Valid() && r1 < rowCount && r2 < rowCount
      modifies data
      ensures Rows() == SwapRows(old(Rows()), r1, r2)
    {
      hide Patch, RowsOf, SwapRows, Field.Valid;
      if r1 == r2 {
        SwapSelf(Rows(), r1);
        return;
      }
      SwapRowsFlat(data[..], rowCount, colCount, r1, r2);
      SwapRanges(data, RowStart(colCount, r1), RowStart(colCount, r2), colCount);
    }

    /** Accumulates a scaled slice into row `r`, starting at column `from`. */
    method AddScaledSlice(scale: E, input: seq<E>, r: nat, from: nat)
      requires Valid() && r < rowCount && from + |input| == colCount
      modifies data
      ensures Rows() == old(Rows())[r := Patch(old(Rows())[r], from,
                                              AddVec(field, old(Rows())[r][from..], Scale(field, scale, input)))]
    {
      hide RowsOf, Patch, Scale, AddVec, Field.Valid;
      RowBounds(rowCount, colCount, r);
      var start := RowStart(colCount, r) + from;
      SuffixOf(data[..], rowCount, colCount, r, from);
      ghost var sum := AddVec(field, data[start..start + |input|], Scale(field, scale, input));
      PatchRow(data[..], rowCount, colCount, r, from, sum);
      MulSliceAdd(field, scale, input, data, start);
    }

    /** Adds `scale` times the pivot row `source` to row `destination`.  Byte fields work on the
        full rows; other fields skip the zero prefix and the known unit pivot. */
    method AddScaledPivotRow(source: nat, destination: nat, scale: E, byteRows: bool)
      requires Valid() && source != destination && source < rowCount && destination < rowCount && source < colCount
      requires forall j :: 0 <= j < source ==> Rows()[source][j] == field.zero
      requires Rows()[source][source] == field.one && Rows()[destination][source] == scale
      modifies data
      ensures Rows() == AddRow(field, old(Rows()), source, destination, scale)
    {
      var input := GetRow(source);
      ghost var was := Rows();
      var zeroPrefix := if byteRows then 0 else source + 1;
      AddScaledSlice(scale, input[zeroPrefix..], destination, zeroPrefix);
      if !byteRows {
        var v := Get(destination, source);
        Set(destination, source, field.Add(v, scale));
      }
      PivotRowTrim(field, was[destination], input, source, scale, byteRows);
    }

    /** Multiplies row `r` from column `from` on by `scale`. */
    method ScaleSuffix(r: nat, from: nat, scale: E)
      requires Valid() && r < rowCount && from <= colCount
      modifies data
      ensures Rows() == old(Rows())[r := Patch(old(Rows())[r], from, Scale(field, scale, old(Rows())[r][from..]))]
    {
      hide RowsOf, Patch, Scale, Field.Valid;
      RowBounds(rowCount, colCount, r);
      var start := RowStart(colCount, r) + from;
      var suffix := data[start..start + (colCount - from)];
      SuffixOf(data[..], rowCount, colCount, r, from);
      PatchRow(data[..], rowCount, colCount, r, from, Scale(field, scale, suffix));
      MulSlice(field, scale, suffix, data, start);
    }

    /** Scales row `r`, whose first `r` columns are zero, so that its pivot becomes one. */
    method NormalizeRow(r: nat, byteRows: bool)
      requires Valid() && r < rowCount && r < colCount
      requires forall j :: 0 <= j < r ==> Rows()[r][j] == field.zero
      requires Rows()[r][r] != field.zero
      modifies data
      ensures Rows() == ScaleRow(field, old(Rows()), r, field.Div(field.one, old(Rows())[r][r]))
    {
      var pivot := Get(r, r);
      ghost var was := Rows();
      NormalizeTrim(field, was[r], r, byteRows);
      var zeroPrefix := if byteRows then 0 else r + 1;
      ScaleSuffix(r, zeroPrefix, field.Div(field.one, pivot));
      if !byteRows {
        ghost var row := Rows()[r];
        Set(r, r, field.one);
        assert Rows() == was[r := row[r := field.one]];
      }
    }

    /** Brings a nonzero entry of column `r` onto the diagonal, if any row below has one. */
    method FindPivot(r: nat) returns (ghost chosen: nat)
      requires Valid() && r < rowCount && r < colCount
      modifies data
      ensures r <= chosen < rowCount && Rows() == SwapRows(old(Rows()), r, chosen)
      ensures Rows()[r][r] != field.zero || forall i :: r <= i < rowCount ==> Rows()[i][r] == field.zero
    {
      chosen := r;
      var diagonal := Get(r, r);
      if diagonal == field.zero {
        var below := r + 1;
        while below < rowCount
          invariant r < below <= rowCount && chosen == r
          invariant Rows() == old(Rows())
          invariant forall i :: r <= i < below ==> Rows()[i][r] == field.zero
        {
          var entry := Get(below, r);
          if entry != field.zero {
            SwapRowsInPlace(r, below);
            return below;
          }
          below := below + 1;
        }
      }
    }

    method ClearEntryInPlace(r: nat, i: nat, byteRows: bool)
      requires Valid() && r < rowCount && r < colCount && i < rowCount && i != r
      requires Rows()[r][r] == field.one && ZeroRange(field, Rows()[r], 0, r)
      modifies data
      ensures Rows() == ClearEntry(field, old(Rows()), colCount, r, i)
    {
      var scale := Get(i, r);
      if scale != field.zero {
        AddScaledPivotRow(r, i, scale, byteRows);
      }
    }

    /** Clears column `r` of the rows `from .. upto` with the pivot row `r`. */
    method ClearColumnInPlace(r: nat, from: nat, upto: nat, byteRows: bool)
      requires Valid() && r < rowCount && r < colCount && from <= upto <= rowCount && !(from <= r < upto)
      requires Rows()[r][r] == field.one && ZeroRange(field, Rows()[r], 0, r)
      modifies data
      ensures Rows() == ClearColumn(field, old(Rows()), colCount, r, from, upto)
    {
      for i := from to upto
        invariant Rows() == ClearColumn(field, old(Rows()), colCount, r, from, i)
      {
        ClearEntryInPlace(r, i, byteRows);
      }
    }

    /** One column: pivot search, normalization and clearing below the pivot. */
    method PivotRound(r: nat, byteRows: bool) returns (pivoted: bool)
      requires Valid() && r < rowCount <= colCount && UnitUpper(field, Rows(), colCount, r)
      modifies data
      ensures Kernel(field, old(Rows()), colCount) == Kernel(field, Rows(), colCount)
      ensures pivoted ==> UnitUpper(field, Rows(), colCount, r + 1)
      ensures !pivoted ==> UnitUpper(field, Rows(), colCount, r) && ColumnZero(field, Rows(), colCount, r, r, rowCount)
    {
      ghost var m := Rows();
      ghost var chosen := FindPivot(r);
      SwapShape(field, m, colCount, r, r, chosen);
      SwapKernel(field, m, colCount, r, chosen);
      var pivot := Get(r, r);
      if pivot == field.zero {
        return false;
      }
      PivotRoundStep(field, m, colCount, r, chosen);
      if pivot != field.one {
        NormalizeRow(r, byteRows);
      }
      ClearColumnInPlace(r, r + 1, rowCount, byteRows);
      pivoted := true;
    }

    /** The forward pass over all columns. */
    method ForwardPass(byteRows: bool) returns (r: Result<(), MatrixError>, ghost kernelVector: seq<E>)
      requires Valid() && rowCount <= colCount
      modifies data
      ensures Kernel(field, old(Rows()), colCount) == Kernel(field, Rows(), colCount)
      ensures r.Ok? ==> UnitUpper(field, Rows(), colCount, rowCount)
      ensures r.Err? ==> r.error == SingularMatrix
      ensures r.Err? ==> !IsZero(field, kernelVector) && kernelVector in Kernel(field, old(Rows()), colCount)
      ensures r.Err? ==> forall j :: rowCount <= j < colCount ==> kernelVector[j] == field.zero
    {
      kernelVector := [];
      for r := 0 to rowCount
        invariant UnitUpper(field, Rows(), colCount, r)
        invariant Kernel(field, old(Rows()), colCount) == Kernel(field, Rows(), colCount)
      {
        var pivoted := PivotRound(r, byteRows);
        if !pivoted {
          kernelVector := SingularColumn(field, Rows(), colCount, r);
          return Err(SingularMatrix), kernelVector;
        }
      }
      r := Ok(());
    }

    /** Clears above the diagonal, column by column. */
    method BackwardPass(byteRows: bool)
      requires Valid() && rowCount <= colCount
      requires UnitUpper(field, Rows(), colCount, rowCount)
      modifies data
      ensures Kernel(field, old(Rows()), colCount) == Kernel(field, Rows(), colCount)
      ensures LeftIdentity(field, Rows(), colCount)
    {
      for d := 0 to rowCount
        invariant Reduced(field, Rows(), colCount, d)
        invariant Kernel(field, old(Rows()), colCount) == Kernel(field, Rows(), colCount)
      {
        BackwardShape(field, Rows(), colCount, d);
        ClearColumnKernel(field, Rows(), colCount, d, 0, d);
        ClearColumnInPlace(d, 0, d, byteRows);
      }
      ReducedDone(field, Rows(), colCount);
    }

    /** Gauss-Jordan elimination of the leading square block.

        On success the block is the identity and the solution set of the whole matrix is
        unchanged; failure exhibits a nonzero vector that shows the block singular. */
    method GaussianElim(byteRows: bool) returns (r: Result<(), MatrixError>, ghost kernelVector: seq<E>)
      requires Valid() && rowCount <= colCount
      modifies data
      ensures Kernel(field, old(Rows()), colCount) == Kernel(field, Rows(), colCount)
      ensures r.Ok? ==> LeftIdentity(field, Rows(), colCount)
      ensures r.Err? ==> r.error == SingularMatrix
      ensures r.Err? ==> !IsZero(field, kernelVector) && kernelVector in Kernel(field, old(Rows()), colCount)
      ensures r.Err? ==> forall j :: rowCount <= j < colCount ==> kernelVector[j] == field.zero
    {
      r, kernelVector := ForwardPass(byteRows);
      if r.Ok? {
        BackwardPass(byteRows);
      }
    }

    /** Copies columns `from .. upto` of a row of `source` into row `r`, starting at column `at`. */
    method FillRow(r: nat, at: nat, source: Matrix<E>, sr: nat, from: nat, upto: nat)
      requires Valid() && source.Valid() && data != source.data
      requires r < rowCount && sr < source.rowCount && from <= upto <= source.colCount && at + (upto - from) <= colCount
      modifies data
      ensures Rows() == old(Rows())[r := Patch(old(Rows())[r], at, source.Rows()[sr][from..upto])]
    {
      ghost var row, input := Rows()[r], source.Rows()[sr];
      assert Patch(row, at, input[from..from]) == row;
      for c := from to upto
        invariant source.Rows()[sr] == input
        invariant Rows() == old(Rows())[r := Patch(row, at, input[from..c])]
      {
        var v := source.Get(sr, c);
        Set(r, at + (c - from), v);
        assert Patch(row, at, input[from..c + 1]) == Patch(row, at, input[from..c])[at + (c - from) := v];
      }
    }

    /** Copies a rectangle. */
    method SubMatrix(rmin: nat, cmin: nat, rmax: nat, cmax: nat) returns (m: Matrix<E>)
      requires Valid() && rmin <= rmax <= rowCount && cmin <= cmax <= colCount
      ensures fresh(m) && fresh(m.data) && m.Valid() && m.field == field
      ensures m.rowCount == rmax - rmin && m.colCount == cmax - cmin
      ensures m.Rows() == SubRows(Rows(), rmin, cmin, rmax, cmax)
    {
      m := new Matrix(field, rmax - rmin, cmax - cmin);
      ghost var source := Rows();
      for r := rmin to rmax
        invariant Rows() == source
        invariant forall i :: 0 <= i < r - rmin ==> m.Rows()[i] == source[rmin + i][cmin..cmax]
      {
        m.FillRow(r - rmin, 0, this, r, cmin, cmax);
      }
    }

    /** Places two matrices side by side. */
    method AugmentWith(rhs: Matrix<E>) returns (r: Result<Matrix<E>, MatrixError>)
      requires Valid() && rhs.Valid()
      ensures r.Ok? <==> rowCount == rhs.rowCount
      ensures r.Err? ==> r.error == IncompatibleDimensions
      ensures r.Ok? ==> fresh(r.value) && fresh(r.value.data) && r.value.Valid() && r.value.field == field
      ensures r.Ok? ==> r.value.rowCount == rowCount && r.value.colCount == colCount + rhs.colCount
      ensures r.Ok? ==> r.value.Rows() == Augment(Rows(), rhs.Rows())
    {
      if rowCount != rhs.rowCount {
        return Err(IncompatibleDimensions);
      }
      var m := new Matrix(field, rowCount, colCount + rhs.colCount);
      ghost var left, right := Rows(), rhs.Rows();
      for r := 0 to rowCount
        invariant Rows() == left && rhs.Rows() == right
        invariant forall i :: 0 <= i < r ==> m.Rows()[i] == left[i] + right[i]
      {
        ghost var row := m.Rows()[r];
        m.FillRow(r, 0, this, r, 0, colCount);
        m.FillRow(r, colCount, rhs, r, 0, rhs.colCount);
        PatchBoth(row, left[r], right[r]);
      }
      r := Ok(m);
    }

    /** `[self | I]`, built directly in its final storage. */
    method AugmentIdentity() returns (work: Matrix<E>)
      requires Valid() && rowCount == colCount
      ensures fresh(work) && fresh(work.data) && work.Valid() && work.field == field
      ensures work.rowCount == rowCount && work.colCount == rowCount + rowCount
      ensures work.Rows() == Augment(Rows(), Identity(field, rowCount))
    {
      hide Overlaid, RowsOf, Patch, Unit, Zeros, Identity, Augment, Field.Valid;
      work := new Matrix(field, rowCount, rowCount + rowCount);
      ghost var goal, zeros := Augment(Rows(), Identity(field, rowCount)), work.Rows();
      OverlaidEnds(goal, zeros);
      for r := 0 to rowCount
        invariant work.Valid() && fresh(work.data)
        invariant work.Rows() == Overlaid(goal, zeros, r)
      {
        var row := GetRow(r);
        work.CopyRow(r, row);
        work.Set(r, rowCount + r, field.one);
        AugmentedRow(field, row, r);
        OverlaidStep(goal, zeros, r);
      }
    }

    /** Copies a slice to the start of row `r`. */
    method CopyRow(r: nat, row: seq<E>)
      requires Valid() && r < rowCount && |row| <= colCount
      modifies data
      ensures Rows() == old(Rows())[r := Patch(old(Rows())[r], 0, row)]
    {
      RowBounds(rowCount, colCount, r);
      var start := RowStart(colCount, r);
      PatchRow(data[..], rowCount, colCount, r, 0, row);
      for i := 0 to |row|
        invariant forall j :: start <= j < start + i ==> data[j] == row[j - start]
        invariant forall j :: 0 <= j < data.Length && !(start <= j < start + i) ==> data[j] == old(data[j])
      {
        data[start + i] := row[i];
      }
      PatchExtends(old(data[..]), start, row, data[..]);
    }

    /** The two-sided inverse, or a nonzero kernel vector showing there is none. */
    method Invert(byteRows: bool) returns (r: Result<Matrix<E>, MatrixError>, ghost kernelVector: seq<E>)
      requires Valid()
      ensures rowCount != colCount <==> r.Err? && r.error == NonSquare
      ensures r.Ok? ==> fresh(r.value) && fresh(r.value.data) && r.value.Valid() && r.value.field == field
      ensures r.Ok? ==> r.value.rowCount == rowCount && r.value.colCount == rowCount
      ensures r.Ok? ==> AreInverse(field, Rows(), r.value.Rows(), rowCount)
      ensures r.Err? && rowCount == colCount ==> r.error == SingularMatrix
      ensures r.Err? && rowCount == colCount ==> !IsZero(field, kernelVector) && kernelVector in Kernel(field, Rows(), rowCount)
      ensures rowCount == colCount ==> (r.Ok? <==> TrivialKernel(field, Rows(), rowCount))
    {
      hide *;
      kernelVector := [];
      if rowCount != colCount {
        return Err(NonSquare), kernelVector;
      }
      var work, result;
      work, result, kernelVector := EliminateAugmented(byteRows);
      if result.Err? {
        return Err(result.error), kernelVector;
      }
      var inverse := work.SubMatrix(0, rowCount, rowCount, rowCount + rowCount);
      r := Ok(inverse);
    }

    /** Eliminates `[self | I]`. */
    method EliminateAugmented(byteRows: bool) returns (work: Matrix<E>, r: Result<(), MatrixError>, ghost kernelVector: seq<E>)
      requires Valid() && rowCount == colCount
      ensures fresh(work) && fresh(work.data) && work.Valid() && work.field == field
      ensures work.rowCount == rowCount && work.colCount == rowCount + rowCount
      ensures r.Ok? <==> TrivialKernel(field, Rows(), rowCount)
      ensures r.Ok? ==> AreInverse(field, Rows(), SubRows(work.Rows(), 0, rowCount, rowCount, rowCount + rowCount), rowCount)
      ensures r.Err? ==> r.error == SingularMatrix
      ensures r.Err? ==> !IsZero(field, kernelVector) && kernelVector in Kernel(field, Rows(), rowCount)
    {
      hide *;
      FieldIsValid();
      work := AugmentIdentity();
      r, kernelVector := work.GaussianElim(byteRows);
      if r.Err? {
        kernelVector := SingularLeft(field, Rows(), Identity(field, rowCount), kernelVector, rowCount);
      } else {
        InverseRead(field, Rows(), work.Rows(), rowCount);
      }
    }

    /** The matrix product; zero coefficients are skipped. */
    method Multiply(rhs: Matrix<E>) returns (r: Result<Matrix<E>, MatrixError>)
      requires Valid() && rhs.Valid() && rhs.field == field
      ensures r.Ok? <==> colCount == rhs.rowCount
      ensures r.Err? ==> r.error == IncompatibleDimensions
      ensures r.Ok? ==> fresh(r.value) && fresh(r.value.data) && r.value.Valid() && r.value.field == field
      ensures r.Ok? ==> r.value.rowCount == rowCount && r.value.colCount == rhs.colCount
      ensures r.Ok? ==> r.value.Rows() == MatMul(field, Rows(), rhs.Rows(), rhs.colCount)
    {
      if colCount != rhs.rowCount {
        return Err(IncompatibleDimensions);
      }
      var m := new Matrix(field, rowCount, rhs.colCount);
      ghost var left, right := Rows(), rhs.Rows();
      for row := 0 to rowCount
        invariant m.Valid() && fresh(m.data)
        invariant Rows() == left && rhs.Rows() == right
        invariant forall i :: 0 <= i < row ==> m.Rows()[i] == Comb(field, left[i], right, rhs.colCount)
        invariant forall i :: row <= i < rowCount ==> m.Rows()[i] == Zeros(field, rhs.colCount)
      {
        m.MultiplyRow(row, this, rhs);
      }
      r := Ok(m);
    }

    /** Accumulates row `row` of `lhs * rhs` into a zero row. */
    method MultiplyRow(row: nat, lhs: Matrix<E>, rhs: Matrix<E>)
      requires Valid() && lhs.Valid() && rhs.Valid() && lhs.field == field && rhs.field == field
      requires data != lhs.data && data != rhs.data
      requires row < rowCount && lhs.rowCount == rowCount && lhs.colCount == rhs.rowCount && rhs.colCount == colCount
      requires Rows()[row] == Zeros(field, colCount)
      modifies data
      ensures Rows() == old(Rows())[row := Comb(field, lhs.Rows()[row], rhs.Rows(), colCount)]
    {
      hide RowsOf, Patch, CombN, AddVec, Scale, Field.Valid;
      var coefficients := lhs.GetRow(row);
      ghost var right := rhs.Rows();
      CombNEmpty(field, coefficients, right, colCount);
      for inner := 0 to lhs.colCount
        invariant rhs.Rows() == right
        invariant Rows() == old(Rows())[row := CombN(field, coefficients, right, colCount, inner)]
      {
        CombSkip(field, coefficients, right, colCount, inner);
        if coefficients[inner] != field.zero {
          var input := rhs.GetRow(inner);
          ghost var sum := CombN(field, coefficients, right, colCount, inner);
          AddScaledSlice(coefficients[inner], input, row, 0);
          PatchWhole(sum, AddVec(field, sum, Scale(field, coefficients[inner], input)));
        }
      }
    }

    /** Row `r` holds the powers of the `r`-th field element. */
    static method Vandermonde(f: Field<E>, rows: nat, cols: nat) returns (m: Matrix<E>)
      requires f.Valid()
      ensures fresh(m) && fresh(m.data) && m.Valid() && m.field == f
      ensures m.rowCount == rows && m.colCount == cols
      ensures m.Rows() == VandermondeRows(f, rows, cols)
    {
      hide Overlaid, RowsOf, Powers, VandermondeRows, Field.Valid, Field.Pow;
      m := new Matrix(f, rows, cols);
      ghost var zeros, goal := m.Rows(), VandermondeRows(f, rows, cols);
      OverlaidEnds(goal, zeros);
      for r := 0 to rows
        invariant m.Valid() && fresh(m.data)
        invariant m.Rows() == Overlaid(goal, zeros, r)
      {
        var a := f.Nth(r);
        ghost var done := m.Rows();
        OverlaidEnds(Powers(f, a, cols), done[r]);
        for c := 0 to cols
          invariant m.Valid() && fresh(m.data)
          invariant m.Rows() == done[r := Overlaid(Powers(f, a, cols), done[r], c)]
        {
          f.ExpIsPow(a, c);
          OverlaidStep(Powers(f, a, cols), done[r], c);
          m.Set(r, c, f.Exp(a, c));
        }
        OverlaidStep(goal, zeros, r);
      }
    }
  }

  /** A row copied in front of a unit row. */
  lemma AugmentedRow<E(!new)>(f: Field<E>, row: seq<E>, r: nat)
    requires r < |row|
    ensures Patch(Zeros(f, |row| + |row|), 0, row)[|row| + r := f.one] == row + Unit(f, |row|, r)
  {
  }

  /** Overwriting a whole slice leaves nothing of it. */
  lemma PatchWhole<T>(s: seq<T>, v: seq<T>)
    requires |v| == |s|
    ensures s[0..] == s && Patch(s, 0, v) == v
  {
  }

  /** Skipping a zero coefficient leaves the same combination. */
  lemma CombSkip<E(!new)>(f: Field<E>, c: seq<E>, m: seq<seq<E>>, w: nat, n: nat)
    requires f.Valid() && n < |c| && IsMatrix(m, |c|, w)
    ensures CombN(f, c, m, w, n + 1)
         == if c[n] == f.zero then CombN(f, c, m, w, n)
            else AddVec(f, CombN(f, c, m, w, n), Scale(f, c[n], m[n]))
  {
    if c[n] == f.zero {
      forall j | 0 <= j < w ensures CombN(f, c, m, w, n + 1)[j] == CombN(f, c, m, w, n)[j] {
        f.Laws(m[n][j], f.zero, f.zero);
        f.Laws(CombN(f, c, m, w, n)[j], f.zero, f.zero);
      }
    }
  }

  /** A kernel vector of `[a | r]` supported on the left block is one of `a`. */
  lemma SingularLeft<E(!new)>(f: Field<E>, a: seq<seq<E>>, r: seq<seq<E>>, z: seq<E>, k: nat) returns (x: seq<E>)
    requires f.Valid() && IsMatrix(a, k, k) && IsMatrix(r, k, k)
    requires z in Kernel(f, Augment(a, r), k + k) && !IsZero(f, z)
    requires forall j :: k <= j < k + k ==> z[j] == f.zero
    ensures x in Kernel(f, a, k) && !IsZero(f, x)
    ensures !TrivialKernel(f, a, k)
  {
    x := z[..k];
    var y := z[k..];
    assert z == x + y;
    AugmentKernel(f, a, r, x, y);
    forall i | 0 <= i < k ensures Dot(f, a[i], x) == f.zero {
      DotNZero(f, r[i], y, k);
      assert Apply(f, a, x)[i] == Apply(f, r, y)[i];
    }
    assert InKernel(f, a, x);
  }

  /** Reading the inverse from the right half of the eliminated workspace. */
  lemma InverseRead<E(!new)>(f: Field<E>, a: seq<seq<E>>, m: seq<seq<E>>, k: nat)
    requires f.Valid() && IsMatrix(a, k, k) && |m| == k && LeftIdentity(f, m, k + k)
    requires Kernel(f, Augment(a, Identity(f, k)), k + k) == Kernel(f, m, k + k)
    ensures AreInverse(f, a, SubRows(m, 0, k, k, k + k), k) && TrivialKernel(f, a, k)
  {
    var right := SubRows(m, 0, k, k, k + k);
    LeftIdentitySplit(f, m, right, k, k);
    EliminationInverts(f, a, right, k);
    InverseTrivialKernel(f, a, right, k);
  }

  lemma LeftIdentitySplit<E(!new)>(f: Field<E>, m: seq<seq<E>>, right: seq<seq<E>>, k: nat, w: nat)
    requires |m| == k && LeftIdentity(f, m, k + w) && IsMatrix(right, k, w)
    requires forall i :: 0 <= i < k ==> right[i] == m[i][k..k + w]
    ensures m == Augment(Identity(f, k), right)
  {
    forall i | 0 <= i < k ensures m[i] == Augment(Identity(f, k), right)[i] {
      assert m[i] == m[i][..k] + m[i][k..k + w];
    }
  }

  /** The trimmed update of a pivot row equals the full-row update. */
  lemma PivotRowTrim<E(!new)>(f: Field<E>, row: seq<E>, input: seq<E>, source: nat, scale: E, byteRows: bool)
    requires f.Valid() && |row| == |input| && source < |row|
    requires forall j :: 0 <= j < source ==> input[j] == f.zero
    requires input[source] == f.one && row[source] == scale
    ensures var p := if byteRows then 0 else source + 1;
            var q := Patch(row, p, AddVec(f, row[p..], Scale(f, scale, input[p..])));
            (if byteRows then q else q[source := f.Add(q[source], scale)])
            == AddVec(f, row, Scale(f, scale, input))
  {
    forall j | 0 <= j <= source ensures f.Add(row[j], f.Mul(scale, input[j])) == if j < source then row[j] else f.Add(row[j], scale) {
      f.Laws(scale, f.zero, f.zero);
      f.Laws(row[j], f.zero, f.zero);
    }
  }

  lemma NormalizeTrim<E(!new)>(f: Field<E>, row: seq<E>, r: nat, byteRows: bool)
    requires f.Valid() && r < |row| && row[r] != f.zero
    requires forall j :: 0 <= j < r ==> row[j] == f.zero
    ensures var p := if byteRows then 0 else r + 1;
            var s := f.Div(f.one, row[r]);
            var q := Patch(row, p, Scale(f, s, row[p..]));
            (if byteRows then q else q[r := f.one]) == Scale(f, s, row)
  {
    f.InverseNonZero(row[r]);
    f.Laws(f.Div(f.one, row[r]), f.zero, f.zero);
  }
}
