/** What the column elimination of the Jerasure-like builder does to the extended Vandermonde matrix. */
module JerasureForms {
  import opened Fields
  import opened Vectors
  import opened Polynomials
  import opened Mds
  import opened ColumnOps

  /** Column `j` of `m` holds the values of `v` on the coefficient vector `cols[j]`. */
  ghost predicate Values<E(!new)>(f: Field<E>, v: seq<seq<E>>, m: seq<seq<E>>, cols: seq<seq<E>>, k: nat) {
    && IsMatrix(v, |v|, k) && IsMatrix(m, |v|, k) && IsMatrix(cols, k, k)
    && forall r, j :: 0 <= r < |v| && 0 <= j < k ==> m[r][j] == Dot(f, cols[j], v[r])
  }

  /** The rows of `v` are combinations of `s` with the rows of `m` as coefficients. */
  ghost predicate Combines<E(!new)>(f: Field<E>, v: seq<seq<E>>, m: seq<seq<E>>, s: seq<seq<E>>, k: nat) {
    && IsMatrix(v, |v|, k) && IsMatrix(m, |v|, k) && IsMatrix(s, k, k)
    && forall r, t :: 0 <= r < |v| && 0 <= t < k ==> v[r][t] == Dot(f, m[r], Col(s, t))
  }

  /** From column `i` on the coefficient vectors are monic of their own degree, but for lower terms
      in the columns before `i`.  While column `i` is being worked on (`busy`), that holds for the
      later columns, and column `i` is only known to have no higher terms. */
  ghost predicate Staircase<E(!new)>(f: Field<E>, cols: seq<seq<E>>, k: nat, i: nat, busy: bool) {
    var from := if busy then i + 1 else i;
    && IsMatrix(cols, k, k)
    && (forall j, l :: from <= j < k && from <= l < k && j != l ==> cols[j][l] == f.zero)
    && (forall j :: from <= j < k ==> cols[j][j] == f.one)
    && (busy ==> i < k && forall l :: from <= l < k ==> cols[i][l] == f.zero)
  }

  /** `cols` and `s` say how `m` came from `v` and how to get back, with the columns before `i` done. */
  ghost predicate Related<E(!new)>(f: Field<E>, v: seq<seq<E>>, m: seq<seq<E>>, k: nat, i: nat, busy: bool, cols: seq<seq<E>>, s: seq<seq<E>>) {
    Values(f, v, m, cols, k) && Combines(f, v, m, s, k) && Staircase(f, cols, k, i, busy)
  }

  ghost predicate Reached<E(!new)>(f: Field<E>, v: seq<seq<E>>, m: seq<seq<E>>, k: nat, i: nat, busy: bool) {
    exists cols, s :: Related(f, v, m, k, i, busy, cols, s)
  }

  /** The matrices the elimination of `v` can have reached when the columns before `i` are done. */
  ghost function Forms<E(!new)>(f: Field<E>, v: seq<seq<E>>, k: nat, i: nat, busy: bool): iset<seq<seq<E>>> {
    iset m: seq<seq<E>> | Reached(f, v, m, k, i, busy)
  }

  lemma FormsStart<E(!new)>(f: Field<E>, v: seq<seq<E>>, k: nat)
    requires f.Valid() && IsMatrix(v, |v|, k)
    ensures v in Forms(f, v, k, 0, false)
  {
    var id := Identity(f, k);
    forall r, j | 0 <= r < |v| && 0 <= j < k
      ensures v[r][j] == Dot(f, id[j], v[r]) && v[r][j] == Dot(f, v[r], Col(id, j))
    {
      assert Col(id, j) == Unit(f, k, j);
      DotUnit(f, v[r], j);
    }
    assert Related(f, v, v, k, 0, false, id, id);
  }

  /** Scaling the current column scales its coefficient vector and unscales one combined row. */
  lemma ScaleForms<E(!new)>(f: Field<E>, v: seq<seq<E>>, m: seq<seq<E>>, k: nat, i: nat, c: E)
    requires f.Valid() && i < k && c != f.zero && IsMatrix(m, |m|, k) && m in Forms(f, v, k, i, false)
    ensures ScaleCol(f, m, k, i, c, 0) in Forms(f, v, k, i, true)
  {
    var cols, s :| Related(f, v, m, k, i, false, cols, s);
    var d := f.Div(f.one, c);
    var m', cols', s' := ScaleCol(f, m, k, i, c, 0), cols[i := Scale(f, c, cols[i])], s[i := Scale(f, d, s[i])];
    f.Laws(c, f.zero, f.zero);
    ScaleValues(f, v, m, cols, k, i, c);
    ScaleCombines(f, v, m, s, k, i, c, d);
    assert Related(f, v, m', k, i, true, cols', s');
  }

  lemma ScaleValues<E(!new)>(f: Field<E>, v: seq<seq<E>>, m: seq<seq<E>>, cols: seq<seq<E>>, k: nat, i: nat, c: E)
    requires f.Valid() && i < k && Values(f, v, m, cols, k)
    ensures Values(f, v, ScaleCol(f, m, k, i, c, 0), cols[i := Scale(f, c, cols[i])], k)
  {
    forall r | 0 <= r < |v| ensures f.Mul(m[r][i], c) == Dot(f, Scale(f, c, cols[i]), v[r]) {
      DotNScale(f, c, cols[i], v[r], k);
      f.Laws(m[r][i], c, c);
    }
  }

  lemma ScaleCombines<E(!new)>(f: Field<E>, v: seq<seq<E>>, m: seq<seq<E>>, s: seq<seq<E>>, k: nat, i: nat, c: E, d: E)
    requires f.Valid() && i < k && c != f.zero && d == f.Div(f.one, c) && Combines(f, v, m, s, k)
    ensures Combines(f, v, ScaleCol(f, m, k, i, c, 0), s[i := Scale(f, d, s[i])], k)
  {
    var m', s' := ScaleCol(f, m, k, i, c, 0), s[i := Scale(f, d, s[i])];
    f.InverseNonZero(c);
    forall r, t | 0 <= r < |v| && 0 <= t < k ensures v[r][t] == Dot(f, m'[r], Col(s', t)) {
      var x := Col(s, t);
      assert Col(s', t) == x[i := f.Mul(d, x[i])];
      DotNMoveFactor(f, m[r], x[i := f.Mul(d, x[i])], k, i, c);
      f.Laws(c, d, x[i]);
      f.Laws(x[i], f.one, f.one);
      assert x[i := f.Mul(d, x[i])][i := f.Mul(c, f.Mul(d, x[i]))] == x;
    }
  }

  /** Adding the current column to another adds the coefficient vectors. */
  lemma AddForms<E(!new)>(f: Field<E>, v: seq<seq<E>>, m: seq<seq<E>>, k: nat, i: nat, j: nat, c: E)
    requires f.Valid() && i < k && j < k && i != j && IsMatrix(m, |m|, k) && m in Forms(f, v, k, i, true)
    ensures AddCol(f, m, k, i, j, c) in Forms(f, v, k, i, true)
  {
    var cols, s :| Related(f, v, m, k, i, true, cols, s);
    var m' := AddCol(f, m, k, i, j, c);
    var cols' := cols[j := AddVec(f, cols[j], Scale(f, c, cols[i]))];
    var s' := s[i := AddVec(f, s[i], Scale(f, c, s[j]))];
    f.Laws(c, f.zero, f.zero);
    f.Laws(f.one, f.zero, f.zero);
    f.Laws(f.zero, f.zero, f.zero);
    AddValues(f, v, m, cols, k, i, j, c);
    AddCombines(f, v, m, s, k, i, j, c);
    assert Related(f, v, m', k, i, true, cols', s');
  }

  lemma AddValues<E(!new)>(f: Field<E>, v: seq<seq<E>>, m: seq<seq<E>>, cols: seq<seq<E>>, k: nat, i: nat, j: nat, c: E)
    requires f.Valid() && i < k && j < k && i != j && Values(f, v, m, cols, k)
    ensures Values(f, v, AddCol(f, m, k, i, j, c), cols[j := AddVec(f, cols[j], Scale(f, c, cols[i]))], k)
  {
    forall r | 0 <= r < |v|
      ensures f.Add(m[r][j], f.Mul(c, m[r][i])) == Dot(f, AddVec(f, cols[j], Scale(f, c, cols[i])), v[r])
    {
      DotNScale(f, c, cols[i], v[r], k);
      DotNAdd(f, cols[j], Scale(f, c, cols[i]), v[r], k);
    }
  }

  lemma AddCombines<E(!new)>(f: Field<E>, v: seq<seq<E>>, m: seq<seq<E>>, s: seq<seq<E>>, k: nat, i: nat, j: nat, c: E)
    requires f.Valid() && i < k && j < k && i != j && Combines(f, v, m, s, k)
    ensures Combines(f, v, AddCol(f, m, k, i, j, c), s[i := AddVec(f, s[i], Scale(f, c, s[j]))], k)
  {
    var m', s' := AddCol(f, m, k, i, j, c), s[i := AddVec(f, s[i], Scale(f, c, s[j]))];
    forall r, t | 0 <= r < |v| && 0 <= t < k ensures v[r][t] == Dot(f, m'[r], Col(s', t)) {
      var x := Col(s, t);
      var y := x[i := f.Add(x[i], f.Mul(c, x[j]))];
      assert Col(s', t) == y;
      DotAddCol(f, m[r], y, i, j, c);
      f.AddCancel(x[i], f.Mul(c, x[j]));
      assert y[i := f.Add(y[i], f.Mul(c, y[j]))] == x;
    }
  }

  /** A pivot that is one already counts as scaled. */
  lemma UnscaledForms<E(!new)>(f: Field<E>, v: seq<seq<E>>, m: seq<seq<E>>, k: nat, i: nat)
    requires i < k && m in Forms(f, v, k, i, false)
    ensures m in Forms(f, v, k, i, true)
  {
    var cols, s :| Related(f, v, m, k, i, false, cols, s);
    assert Related(f, v, m, k, i, true, cols, s);
  }

  /** When the current column is done, the next one is the current one. */
  lemma NextForms<E(!new)>(f: Field<E>, v: seq<seq<E>>, m: seq<seq<E>>, k: nat, i: nat)
    requires m in Forms(f, v, k, i, true)
    ensures m in Forms(f, v, k, i + 1, false)
  {
    var cols, s :| Related(f, v, m, k, i, true, cols, s);
    assert Related(f, v, m, k, i + 1, false, cols, s);
  }

  lemma {:induction false} EvalTrailingZeros<E(!new)>(f: Field<E>, p: seq<E>, m: nat, x: E)
    requires f.Valid() && m <= |p| && forall l :: m <= l < |p| ==> p[l] == f.zero
    ensures Eval(f, p, x) == Eval(f, p[..m], x)
  {
    if m == |p| {
      assert p[..m] == p;
    } else {
      var q := p[..|p| - 1];
      assert p == q + [f.zero] && q[..m] == p[..m];
      EvalSnoc(f, q, f.zero, x);
      f.Laws(f.Pow(x, |q|), f.zero, f.zero);
      f.Laws(Eval(f, q, x), f.zero, f.zero);
      EvalTrailingZeros(f, q, m, x);
    }
  }

  /** The pivot of column `i` is never zero: the column holds the values of a monic polynomial of
      degree `i` that already vanishes at `i` other points.  So no rows are ever exchanged. */
  lemma PivotNonZero<E(!new)>(f: Field<E>, n: nat, k: nat, m: seq<seq<E>>, i: nat)
    requires f.Valid() && 0 < k < n <= f.order && InteriorNonZero(f, n) && i < k
    requires m in Forms(f, ExtendedVandermonde(f, n, k), k, i, false) && |m| == n && IsMatrix(m, n, k)
    requires forall r :: 0 <= r < i ==> m[r] == Unit(f, k, r)
    ensures m[i][i] != f.zero
  {
    var v := ExtendedVandermonde(f, n, k);
    var cols, s :| Related(f, v, m, k, i, false, cols, s);
    var p := cols[i];
    if m[i][i] == f.zero {
      var idx: seq<nat> := seq(i + 1, r requires 0 <= r < i + 1 => r);
      forall r | 0 <= r < i + 1 ensures Eval(f, p[..i + 1], Point(f, idx[r])) == f.zero {
        assert m[r][i] == f.zero;
        DotNComm(f, p, v[r], k);
        ExtendedRow(f, n, k, r, p);
        EvalTrailingZeros(f, p, i + 1, Point(f, r));
      }
      assert p[..i + 1][i] == p[i] == f.one;
      FiniteSelected(f, n, idx, p[..i + 1]);
    }
  }

  /** `h` is `v` with its top block divided out. */
  ghost predicate DividesTop<E(!new)>(f: Field<E>, v: seq<seq<E>>, h: seq<seq<E>>, k: nat) {
    && k <= |v| && IsMatrix(v, |v|, k) && IsMatrix(h, |v|, k) && Systematic(f, h, k)
    && MatMul(f, h, v[..k], k) == v
  }

  /** Once all columns are eliminated, the top block has been divided out. */
  lemma FormsEnd<E(!new)>(f: Field<E>, v: seq<seq<E>>, m: seq<seq<E>>, k: nat)
    requires f.Valid() && k <= |v| == |m| && Systematic(f, m, k) && m in Forms(f, v, k, k, false)
    ensures DividesTop(f, v, m, k)
  {
    var cols, s :| Related(f, v, m, k, k, false, cols, s);
    forall r, t | 0 <= r < k && 0 <= t < k ensures v[r][t] == s[r][t] {
      DotUnit(f, Col(s, t), r);
      assert m[r] == Unit(f, k, r);
    }
    forall r | 0 <= r < k ensures v[r] == s[r] {
      assert |v[r]| == |s[r]| && forall t :: 0 <= t < k ==> v[r][t] == s[r][t];
    }
    assert v[..k] == s;
    forall r | 0 <= r < |v| ensures Comb(f, m[r], s, k) == v[r] {
      forall t | 0 <= t < k ensures Comb(f, m[r], s, k)[t] == v[r][t] {
        CombAt(f, m[r], s, k, t);
      }
    }
  }

  /** The parity rows of `g` are those of `h` with columns and rows scaled so that the first row and
      the first column of the parity part become ones. */
  ghost predicate OnesHeaded<E(!new)>(f: Field<E>, h: seq<seq<E>>, g: seq<seq<E>>, n: nat, k: nat) {
    && 0 < k < n && IsMatrix(h, n, k) && IsMatrix(g, n, k)
    && forall r, j :: k <= r < n && 0 <= j < k ==>
         f.Mul(g[r][j], f.Mul(h[r][0], h[k][j])) == f.Mul(h[r][j], h[k][0])
  }

  /** The coefficients of the Jerasure-like format: the extended Vandermonde matrix, its top block
      divided out, its parity part headed by ones. */
  ghost predicate JerasureCode<E(!new)>(f: Field<E>, g: seq<seq<E>>, n: nat, k: nat) {
    && 0 < k < n && IsMatrix(g, n, k)
    && exists h :: DividesTop(f, ExtendedVandermonde(f, n, k), h, k) && OnesHeaded(f, h, g, n, k)
  }

  /** One column scaling and one row scaling, one after the other. */
  lemma ScaledTwice<E(!new)>(f: Field<E>, h: E, hk: E, h0: E, hk0: E, p: E, p0: E, g: E)
    requires f.Valid()
    requires f.Mul(p, hk) == h && f.Mul(p0, hk0) == h0 && f.Mul(g, p0) == p
    ensures f.Mul(g, f.Mul(h0, hk)) == f.Mul(h, hk0)
  {
    f.Laws(h0, hk, hk);
    f.Laws(g, f.Mul(p0, hk0), hk);
    f.Laws(g, p0, hk0);
    f.Laws(p, hk0, hk);
    f.Laws(hk0, hk, hk);
    f.Laws(p, hk, hk0);
  }
}
