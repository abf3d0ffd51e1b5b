/** The decode matrix of a survivor selection: the inverse of the selected encoding rows,
    found by eliminating only the coefficients of the missing data. */
module DecodeMatrices {
  import opened Outcomes
  import opened Fields
  import opened Vectors
  import opened Kernels
  import opened Elimination
  import opened Slices
  import opened Matrices
  import opened Codecs
  import opened Indices

  /** The encoding rows of the survivors. */
  function Survived<E(!new)>(c: Codec<E>, valid: seq<nat>): (s: seq<seq<E>>)
    requires IsMatrix(c.matrix, c.TotalShards(), c.dataShards) && Below(valid, c.TotalShards())
    ensures IsMatrix(s, |valid|, c.dataShards)
  {
    Gather(c.matrix, valid)
  }

  /** `k` ascending survivors: known data shards, then parity shards; `missing` is the unknown data. */
  ghost predicate Layout<E(!new)>(c: Codec<E>, known: seq<nat>, parity: seq<nat>, missing: seq<nat>) {
    && c.Valid() && |known| + |parity| == c.dataShards && |parity| == |missing|
    && Below(parity, c.TotalShards()) && Partition(known, missing, c.dataShards)
  }

  // ----- the reduced system

  /** The coefficients of the missing data in the selected parity shards. */
  ghost function Unknowns<E(!new)>(c: Codec<E>, known: seq<nat>, parity: seq<nat>, missing: seq<nat>): (m: seq<seq<E>>)
    requires Layout(c, known, parity, missing)
    ensures IsMatrix(m, |parity|, |missing|)
    ensures forall r {:trigger m[r]} :: 0 <= r < |parity| ==> m[r] == Gather(c.matrix[parity[r]], missing)
  {
    seq(|parity|, r requires 0 <= r < |parity| => Gather(c.matrix[parity[r]], missing))
  }

  /** The right-hand side, in survivor order: known data, then the parity shards themselves. */
  ghost function RightHand<E(!new)>(c: Codec<E>, known: seq<nat>, parity: seq<nat>, missing: seq<nat>): (m: seq<seq<E>>)
    requires Layout(c, known, parity, missing)
    ensures IsMatrix(m, |parity|, c.dataShards)
    ensures forall r {:trigger m[r]} :: 0 <= r < |parity| ==>
      m[r] == Gather(c.matrix[parity[r]], known) + Unit(c.field, |parity|, r)
  {
    seq(|parity|, r requires 0 <= r < |parity| => Gather(c.matrix[parity[r]], known) + Unit(c.field, |parity|, r))
  }

  /** `x` solves the reduced system for every right-hand side, and nothing else does. */
  ghost predicate Solves<E(!new)>(f: Field<E>, a: seq<seq<E>>, r: seq<seq<E>>, x: seq<seq<E>>, w: nat)
    requires IsMatrix(a, |a|, |a|) && IsMatrix(r, |a|, w) && IsMatrix(x, |a|, w)
  {
    forall u: seq<E>, y: seq<E> :: |u| == |a| && |y| == w ==> (Apply(f, a, u) == Apply(f, r, y) <==> u == Apply(f, x, y))
  }

  /** Unit rows for the known data, the solved rows for the missing data. */
  ghost predicate Assembled<E(!new)>(f: Field<E>, d: seq<seq<E>>, known: seq<nat>, missing: seq<nat>, x: seq<seq<E>>, k: nat) {
    && IsMatrix(d, k, k) && |x| == |missing| && Below(known, k) && Below(missing, k)
    && (forall i :: 0 <= i < |known| ==> d[known[i]] == Unit(f, k, i))
    && (forall r :: 0 <= r < |missing| ==> d[missing[r]] == x[r])
  }

  lemma ParityEquation<E(!new)>(c: Codec<E>, known: seq<nat>, parity: seq<nat>, missing: seq<nat>, x: seq<E>, y: seq<E>, r: nat)
    requires Layout(c, known, parity, missing) && |x| == |y| == c.dataShards && r < |parity|
    requires Gather(x, known) == y[..|known|]
    ensures Dot(c.field, c.matrix[parity[r]], x) == y[|known| + r]
       <==> Dot(c.field, Unknowns(c, known, parity, missing)[r], Gather(x, missing)) == Dot(c.field, RightHand(c, known, parity, missing)[r], y)
  {
    var f, row := c.field, c.matrix[parity[r]];
    var yk, yp := y[..|known|], y[|known|..];
    DotPartition(f, row, x, known, missing, c.dataShards);
    assert y == yk + yp;
    DotNConcat(f, Gather(row, known), Unit(f, |parity|, r), yk, yp, |parity|);
    DotUnit(f, yp, r);
    var s, t, v := Dot(f, Gather(row, known), yk), Dot(f, Gather(row, missing), Gather(x, missing)), y[|known| + r];
    f.AddCancel(f.Add(s, t), v);
    f.AddCancel(t, f.Add(s, v));
    f.Laws(s, t, v);
    f.Laws(t, s, v);
  }

  /** The surviving data rows read the known data. */
  lemma KnownRows<E(!new)>(c: Codec<E>, known: seq<nat>, parity: seq<nat>, missing: seq<nat>, x: seq<E>, y: seq<E>)
    requires Layout(c, known, parity, missing) && |x| == |y| == c.dataShards
    requires Below(known + parity, c.TotalShards())
    ensures forall i :: 0 <= i < |known| ==> Dot(c.field, Survived(c, known + parity)[i], x) == Gather(x, known)[i]
    ensures Apply(c.field, Survived(c, known + parity), x) == y ==> Gather(x, known) == y[..|known|]
  {
    var f, s := c.field, Survived(c, known + parity);
    forall i | 0 <= i < |known| ensures Dot(f, s[i], x) == x[known[i]] {
      DotUnit(f, x, known[i]);
    }
    if Apply(f, s, x) == y {
      forall i | 0 <= i < |known| ensures Gather(x, known)[i] == y[i] {
        assert Apply(f, s, x)[i] == y[i];
      }
    }
  }

  /** `x` has the survivors `y` exactly when it repeats the known data and solves the reduced system. */
  lemma SurvivorSystem<E(!new)>(c: Codec<E>, known: seq<nat>, parity: seq<nat>, missing: seq<nat>, x: seq<E>, y: seq<E>)
    requires Layout(c, known, parity, missing) && |x| == |y| == c.dataShards
    requires Below(known + parity, c.TotalShards())
    ensures Apply(c.field, Survived(c, known + parity), x) == y
       <==> (Gather(x, known) == y[..|known|]
             && Apply(c.field, Unknowns(c, known, parity, missing), Gather(x, missing)) == Apply(c.field, RightHand(c, known, parity, missing), y))
  {
    var f, s := c.field, Survived(c, known + parity);
    var u, rhs := Unknowns(c, known, parity, missing), RightHand(c, known, parity, missing);
    KnownRows(c, known, parity, missing, x, y);
    if Gather(x, known) == y[..|known|] {
      forall r | 0 <= r < |parity|
        ensures Dot(f, s[|known| + r], x) == y[|known| + r] <==> Dot(f, u[r], Gather(x, missing)) == Dot(f, rhs[r], y)
      {
        ParityEquation(c, known, parity, missing, x, y, r);
      }
      SystemAgrees(f, s, x, y, u, Gather(x, missing), rhs, |known|);
    }
  }

  /** Row-by-row agreement of two systems, the first with its first `a` rows already satisfied. */
  lemma SystemAgrees<E(!new)>(f: Field<E>, s: seq<seq<E>>, x: seq<E>, y: seq<E>, u: seq<seq<E>>, z: seq<E>, rhs: seq<seq<E>>, a: nat)
    requires IsMatrix(s, a + |u|, |x|) && IsMatrix(u, |u|, |z|) && IsMatrix(rhs, |u|, |y|) && |y| == a + |u|
    requires forall i :: 0 <= i < a ==> Dot(f, s[i], x) == y[i]
    requires forall r :: 0 <= r < |u| ==> (Dot(f, s[a + r], x) == y[a + r] <==> Dot(f, u[r], z) == Dot(f, rhs[r], y))
    ensures Apply(f, s, x) == y <==> Apply(f, u, z) == Apply(f, rhs, y)
  {
    if Apply(f, s, x) == y {
      forall r | 0 <= r < |u| ensures Apply(f, u, z)[r] == Apply(f, rhs, y)[r] {
        assert Apply(f, s, x)[a + r] == y[a + r];
      }
    }
    if Apply(f, u, z) == Apply(f, rhs, y) {
      forall i | 0 <= i < |y| ensures Apply(f, s, x)[i] == y[i] {
        if i >= a {
          assert Apply(f, u, z)[i - a] == Apply(f, rhs, y)[i - a];
          assert Dot(f, s[a + (i - a)], x) == y[a + (i - a)];
        }
      }
    }
  }

  lemma AssembledApply<E(!new)>(f: Field<E>, d: seq<seq<E>>, known: seq<nat>, missing: seq<nat>, sol: seq<seq<E>>, k: nat, x: seq<E>, y: seq<E>)
    requires f.Valid() && Assembled(f, d, known, missing, sol, k) && Partition(known, missing, k) && |x| == |y| == k
    requires |known| <= k && IsMatrix(sol, |missing|, k)
    ensures x == Apply(f, d, y) <==> Gather(x, known) == y[..|known|] && Gather(x, missing) == Apply(f, sol, y)
  {
    var z := Apply(f, d, y);
    forall i | 0 <= i < |known| ensures z[known[i]] == y[i] {
      DotUnit(f, y, i);
    }
    assert forall r :: 0 <= r < |missing| ==> z[missing[r]] == Apply(f, sol, y)[r];
    if Gather(x, known) == y[..|known|] && Gather(x, missing) == Apply(f, sol, y) {
      forall j | 0 <= j < k ensures x[j] == z[j] {
        if j in known {
          var i :| 0 <= i < |known| && known[i] == j;
          assert Gather(x, known)[i] == y[..|known|][i];
        } else {
          var r :| 0 <= r < |missing| && missing[r] == j;
          assert Gather(x, missing)[r] == Apply(f, sol, y)[r];
        }
      }
    }
  }

  /** Assembling a solution of the reduced system inverts the survivor rows. */
  lemma AssembledInverts<E(!new)>(c: Codec<E>, known: seq<nat>, parity: seq<nat>, missing: seq<nat>, sol: seq<seq<E>>, d: seq<seq<E>>)
    requires Layout(c, known, parity, missing) && Below(known + parity, c.TotalShards())
    requires IsMatrix(sol, |missing|, c.dataShards) && Assembled(c.field, d, known, missing, sol, c.dataShards)
    requires Solves(c.field, Unknowns(c, known, parity, missing), RightHand(c, known, parity, missing), sol, c.dataShards)
    ensures AreInverse(c.field, Survived(c, known + parity), d, c.dataShards)
  {
    var f, k, s := c.field, c.dataShards, Survived(c, known + parity);
    forall x: seq<E>, y: seq<E> | |x| == k && |y| == k ensures Apply(f, s, x) == y <==> x == Apply(f, d, y) {
      SurvivorSystem(c, known, parity, missing, x, y);
      AssembledApply(f, d, known, missing, sol, k, x, y);
    }
    UndoesInverts(f, s, d, k);
  }

  lemma UndoesInverts<E(!new)>(f: Field<E>, s: seq<seq<E>>, d: seq<seq<E>>, k: nat)
    requires f.Valid() && IsMatrix(s, k, k) && IsMatrix(d, k, k)
    requires forall x: seq<E>, y: seq<E> :: |x| == k && |y| == k ==> (Apply(f, s, x) == y <==> x == Apply(f, d, y))
    ensures AreInverse(f, s, d, k)
  {
    forall x: seq<E> | |x| == k ensures Apply(f, MatMul(f, d, s, k), x) == x && Apply(f, MatMul(f, s, d, k), x) == x {
      ApplyMatMul(f, d, s, x);
      ApplyMatMul(f, s, d, x);
      assert x == Apply(f, d, Apply(f, s, x));
      assert Apply(f, s, Apply(f, d, x)) == x;
    }
    FixesEverything(f, MatMul(f, d, s, k), k);
    FixesEverything(f, MatMul(f, s, d, k), k);
  }

  /** Spreads `u` over the positions `missing`, zero elsewhere. */
  ghost function Scatter<E(!new)>(f: Field<E>, missing: seq<nat>, u: seq<E>, k: nat): (x: seq<E>)
    requires Ascending(missing) && Below(missing, k) && |u| == |missing|
    ensures |x| == k && Gather(x, missing) == u
    ensures forall j :: 0 <= j < k && j !in missing ==> x[j] == f.zero
  {
    var x := seq(k, j => if j in missing then (var i :| 0 <= i < |missing| && missing[i] == j; u[i]) else f.zero);
    assert forall i :: 0 <= i < |missing| ==> x[missing[i]] == u[i];
    x
  }

  /** A singular reduced system means singular survivors. */
  lemma SingularSystem<E(!new)>(c: Codec<E>, known: seq<nat>, parity: seq<nat>, missing: seq<nat>, u: seq<E>)
    requires Layout(c, known, parity, missing) && Below(known + parity, c.TotalShards())
    requires |u| == |missing| && !IsZero(c.field, u) && Apply(c.field, Unknowns(c, known, parity, missing), u) == Zeros(c.field, |parity|)
    ensures !TrivialKernel(c.field, Survived(c, known + parity), c.dataShards)
  {
    var f, k, s := c.field, c.dataShards, Survived(c, known + parity);
    var x, rhs := Scatter(f, missing, u, k), RightHand(c, known, parity, missing);
    forall r | 0 <= r < |parity| ensures Dot(f, rhs[r], Zeros(f, k)) == f.zero {
      DotNZero(f, rhs[r], Zeros(f, k), k);
    }
    forall i | 0 <= i < |known| ensures Gather(x, known)[i] == f.zero {
      assert known[i] in known;
    }
    SurvivorSystem(c, known, parity, missing, x, Zeros(f, k));
    assert Apply(f, s, x) == Zeros(f, k);
    forall i | 0 <= i < k ensures Dot(f, s[i], x) == f.zero {
      assert Apply(f, s, x)[i] == f.zero;
    }
    assert x in Kernel(f, s, k);
    var r :| 0 <= r < |u| && u[r] != f.zero;
    assert Gather(x, missing)[r] != f.zero;
  }

  // ----- the construction

  /** The data shards missing from an ascending selection, with its split into data and parity. */
  method SplitSelection<E(!new)>(c: Codec<E>, valid: seq<nat>) returns (present: nat, missing: seq<nat>)
    requires c.Valid() && |valid| == c.dataShards && Ascending(valid) && Below(valid, c.TotalShards())
    ensures present <= |valid| && Layout(c, valid[..present], valid[present..], missing)
    ensures forall i :: present <= i < |valid| ==> valid[i] >= c.dataShards
  {
    hide Codec.Valid, Layout, PartitionPoint;
    present := PartitionPoint(valid, c.dataShards);
    missing := [];
    var known := 0;
    for index := 0 to c.dataShards
      invariant known <= present && Ascending(missing) && Below(missing, index)
      invariant forall i :: 0 <= i < known ==> valid[i] < index
      invariant forall i :: known <= i < |valid| ==> valid[i] >= index
      invariant forall i :: 0 <= i < index ==> (i in valid[..present]) != (i in missing)
    {
      ghost var before := missing;
      if known < present && valid[known] == index {
        assert valid[..present][known] == index;
        known := known + 1;
      } else {
        missing := missing + [index];
        assert forall i :: 0 <= i < index ==> (i in missing <==> i in before);
      }
    }
    PartitionLayout(c, valid, present, missing);
  }

  lemma PartitionLayout<E(!new)>(c: Codec<E>, valid: seq<nat>, present: nat, missing: seq<nat>)
    requires c.Valid() && |valid| == c.dataShards && Below(valid, c.TotalShards())
    requires present <= |valid| && Partition(valid[..present], missing, c.dataShards)
    ensures Layout(c, valid[..present], valid[present..], missing)
  {
    PartitionSize(valid[..present], missing, c.dataShards);
  }

  /** The decode matrix, or an error exactly when the survivors are singular. */
  method BuildDataDecodeMatrix<E(==, !new)>(c: Codec<E>, valid: seq<nat>, byteRows: bool) returns (r: Result<Matrix<E>, Error>)
    requires c.Valid() && |valid| == c.dataShards && Ascending(valid) && Below(valid, c.TotalShards())
    ensures r.Ok? <==> TrivialKernel(c.field, Survived(c, valid), c.dataShards)
    ensures r.Err? ==> r.error == InvalidMatrix
    ensures r.Ok? ==> fresh(r.value) && fresh(r.value.data) && r.value.Valid() && r.value.field == c.field
    ensures r.Ok? ==> r.value.rowCount == c.dataShards && r.value.colCount == c.dataShards
    ensures r.Ok? ==> AreInverse(c.field, Survived(c, valid), r.value.Rows(), c.dataShards)
  {
    var present, missing := SplitSelection(c, valid);
    var known, parity := valid[..present], valid[present..];
    assert known + parity == valid;
    if present + 1 == c.dataShards {
      r := DecodeOneMissing(c, known, parity, missing);
    } else if present != 0 && c.dataShards - present > 1 {
      r := DecodeSeveralMissing(c, known, parity, missing, byteRows);
    } else {
      r := DecodeDense(c, valid, byteRows);
    }
    if r.Ok? {
      InverseTrivialKernel(c.field, Survived(c, valid), r.value.Rows(), c.dataShards);
    }
  }

  /** One missing data shard: divide the single parity equation by its pivot. */
  method DecodeOneMissing<E(==, !new)>(c: Codec<E>, known: seq<nat>, parity: seq<nat>, missing: seq<nat>) returns (r: Result<Matrix<E>, Error>)
    requires Layout(c, known, parity, missing) && Below(known + parity, c.TotalShards()) && |missing| == 1
    ensures r.Err? ==> r.error == InvalidMatrix && !TrivialKernel(c.field, Survived(c, known + parity), c.dataShards)
    ensures r.Ok? ==> fresh(r.value) && fresh(r.value.data) && r.value.Valid() && r.value.field == c.field
    ensures r.Ok? ==> r.value.rowCount == c.dataShards && r.value.colCount == c.dataShards
    ensures r.Ok? ==> AreInverse(c.field, Survived(c, known + parity), r.value.Rows(), c.dataShards)
  {
    hide Solves, Field.Valid, TrivialKernel, Inverses;
    var f, k, target := c.field, c.dataShards, missing[0];
    var parityRow := c.matrix[parity[0]];
    var pivot := parityRow[target];
    if pivot == f.zero {
      ZeroPivot(c, known, parity, missing);
      return Err(InvalidMatrix);
    }
    var reciprocal := f.Div(f.one, pivot);
    var decode := UnitRows(f, known, k);
    assert target in missing;
    ghost var sol := [Scale(f, reciprocal, Gather(parityRow, known)) + [reciprocal]];
    ScaledRow(f, decode, target, known, parityRow, reciprocal);
    forall i | 0 <= i < |known| ensures decode.Rows()[known[i]] == Unit(f, k, i) {
      assert known[i] in known;
    }
    OneEquation(c, known, parity, missing, reciprocal, sol);
    AssembledInverts(c, known, parity, missing, sol, decode.Rows());
    r := Ok(decode);
  }

  /** The row of the missing shard: its parity equation divided by the pivot. */
  method ScaledRow<E(==, !new)>(f: Field<E>, decode: Matrix<E>, target: nat, known: seq<nat>, parityRow: seq<E>, reciprocal: E)
    requires decode.Valid() && target < decode.rowCount && |known| + 1 == decode.colCount && Below(known, |parityRow|)
    modifies decode.data
    ensures decode.Rows() == old(decode.Rows())[target := Scale(f, reciprocal, Gather(parityRow, known)) + [reciprocal]]
  {
    ghost var was, scaled := decode.Rows(), Scale(f, reciprocal, Gather(parityRow, known));
    PatchGrows(was[target], 0, scaled, 0);
    for column := 0 to |known|
      invariant decode.Valid() && decode.Rows() == was[target := Patch(was[target], 0, scaled[..column])]
    {
      PatchGrows(was[target], 0, scaled, column);
      decode.Set(target, column, f.Mul(reciprocal, parityRow[known[column]]));
    }
    decode.Set(target, |known|, reciprocal);
    assert scaled[..|known|] == scaled;
    assert Patch(was[target], 0, scaled)[|known| := reciprocal] == scaled + [reciprocal];
  }

  lemma ZeroPivot<E(!new)>(c: Codec<E>, known: seq<nat>, parity: seq<nat>, missing: seq<nat>)
    requires Layout(c, known, parity, missing) && Below(known + parity, c.TotalShards()) && |missing| == 1
    requires c.matrix[parity[0]][missing[0]] == c.field.zero
    ensures !TrivialKernel(c.field, Survived(c, known + parity), c.dataShards)
  {
    var f, u := c.field, [c.field.one];
    var m := Unknowns(c, known, parity, missing);
    DotNZero(f, m[0], u, 1);
    assert Apply(f, m, u) == Zeros(f, 1);
    SingularSystem(c, known, parity, missing, u);
  }

  lemma OneEquation<E(!new)>(c: Codec<E>, known: seq<nat>, parity: seq<nat>, missing: seq<nat>, reciprocal: E, sol: seq<seq<E>>)
    requires Layout(c, known, parity, missing) && |missing| == 1
    requires c.matrix[parity[0]][missing[0]] != c.field.zero && reciprocal == c.field.Div(c.field.one, c.matrix[parity[0]][missing[0]])
    requires sol == [Scale(c.field, reciprocal, Gather(c.matrix[parity[0]], known)) + [reciprocal]]
    ensures Solves(c.field, Unknowns(c, known, parity, missing), RightHand(c, known, parity, missing), sol, c.dataShards)
  {
    var f, k, pivot := c.field, c.dataShards, c.matrix[parity[0]][missing[0]];
    var m, rhs := Unknowns(c, known, parity, missing), RightHand(c, known, parity, missing);
    f.InverseNonZero(pivot);
    forall j | 0 <= j < k ensures sol[0][j] == f.Mul(reciprocal, rhs[0][j]) {
      f.Laws(reciprocal, f.one, f.one);
    }
    assert sol[0] == Scale(f, reciprocal, rhs[0]);
    forall u: seq<E>, y: seq<E> | |u| == 1 && |y| == k ensures Apply(f, m, u) == Apply(f, rhs, y) <==> u == Apply(f, sol, y) {
      DotNSingle(f, m[0], u, 1, 0);
      DotNScale(f, reciprocal, rhs[0], y, k);
      var v := Dot(f, rhs[0], y);
      assert Apply(f, m, u) == [f.Mul(pivot, u[0])] && Apply(f, rhs, y) == [v] && Apply(f, sol, y) == [f.Mul(reciprocal, v)];
      f.Laws(reciprocal, pivot, u[0]);
      f.Laws(pivot, reciprocal, v);
      f.Laws(u[0], u[0], u[0]);
      f.Laws(v, v, v);
      assert u == [u[0]];
    }
  }

  /** Several missing data shards: eliminate `[C | B I]` to `[I | C^-1 B  C^-1]`. */
  method DecodeSeveralMissing<E(==, !new)>(c: Codec<E>, known: seq<nat>, parity: seq<nat>, missing: seq<nat>, byteRows: bool)
    returns (r: Result<Matrix<E>, Error>)
    requires Layout(c, known, parity, missing) && Below(known + parity, c.TotalShards())
    ensures r.Err? ==> r.error == InvalidMatrix && !TrivialKernel(c.field, Survived(c, known + parity), c.dataShards)
    ensures r.Ok? ==> fresh(r.value) && fresh(r.value.data) && r.value.Valid() && r.value.field == c.field
    ensures r.Ok? ==> r.value.rowCount == c.dataShards && r.value.colCount == c.dataShards
    ensures r.Ok? ==> AreInverse(c.field, Survived(c, known + parity), r.value.Rows(), c.dataShards)
  {
    hide Solves, Field.Valid, TrivialKernel, Inverses;
    var f, k, m := c.field, c.dataShards, |missing|;
    var equations := BuildEquations(c, known, parity, missing);
    var eliminated, kernelVector := equations.GaussianElim(byteRows);
    if eliminated.Err? {
      UnsolvableSystem(c, known, parity, missing, kernelVector);
      return Err(InvalidMatrix);
    }
    ghost var sol := SubRows(equations.Rows(), 0, m, m, m + k);
    EliminatedSolves(c, known, parity, missing, equations.Rows(), sol);
    var decode := AssembleDecode(c, known, missing, equations, sol);
    AssembledInverts(c, known, parity, missing, sol, decode.Rows());
    r := Ok(decode);
  }

  method BuildEquations<E(==, !new)>(c: Codec<E>, known: seq<nat>, parity: seq<nat>, missing: seq<nat>) returns (equations: Matrix<E>)
    requires Layout(c, known, parity, missing)
    ensures fresh(equations) && fresh(equations.data) && equations.Valid() && equations.field == c.field
    ensures equations.rowCount == |missing| && equations.colCount == |missing| + c.dataShards
    ensures equations.Rows() == Augment(Unknowns(c, known, parity, missing), RightHand(c, known, parity, missing))
  {
    hide Field.Valid;
    var f, k, m := c.field, c.dataShards, |missing|;
    ghost var want := Augment(Unknowns(c, known, parity, missing), RightHand(c, known, parity, missing));
    equations := new Matrix(f, m, m + k);
    for row := 0 to m
      invariant fresh(equations.data) && equations.Valid()
      invariant forall i :: 0 <= i < row ==> equations.Rows()[i] == want[i]
      invariant forall i :: row <= i < m ==> equations.Rows()[i] == Zeros(f, m + k)
    {
      FillEquation(f, equations, c.matrix[parity[row]], known, missing, row);
    }
    assert equations.Rows() == want;
  }

  /** One row: missing coefficients, known coefficients, and a one in the row's own column. */
  method FillEquation<E(==, !new)>(f: Field<E>, equations: Matrix<E>, coefficients: seq<E>, known: seq<nat>, missing: seq<nat>, row: nat)
    requires equations.Valid() && row < |missing| == equations.rowCount && equations.colCount == |missing| + (|known| + |missing|)
    requires Below(known, |coefficients|) && Below(missing, |coefficients|)
    requires equations.Rows()[row] == Zeros(f, equations.colCount)
    modifies equations.data
    ensures equations.Rows() == old(equations.Rows())[row := Gather(coefficients, missing) + (Gather(coefficients, known) + Unit(f, |missing|, row))]
  {
    hide Field.Valid;
    var m := |missing|;
    equations.SetEntries(row, 0, Gather(coefficients, missing));
    equations.SetEntries(row, m, Gather(coefficients, known));
    equations.Set(row, m + |known| + row, f.one);
    EquationRow(f, Gather(coefficients, missing), Gather(coefficients, known), m, row);
  }

  lemma EquationRow<E(!new)>(f: Field<E>, unknown: seq<E>, given: seq<E>, m: nat, row: nat)
    requires |unknown| == m && row < m
    ensures Patch(Patch(Zeros(f, m + |given| + m), 0, unknown), m, given)[m + |given| + row := f.one]
         == unknown + (given + Unit(f, m, row))
  {
  }

  method AssembleDecode<E(==, !new)>(c: Codec<E>, known: seq<nat>, missing: seq<nat>, equations: Matrix<E>, ghost sol: seq<seq<E>>)
    returns (decode: Matrix<E>)
    requires c.Valid() && |known| <= c.dataShards && Partition(known, missing, c.dataShards)
    requires equations.Valid() && equations.rowCount == |missing| && equations.colCount == |missing| + c.dataShards
    requires sol == SubRows(equations.Rows(), 0, |missing|, |missing|, |missing| + c.dataShards)
    ensures fresh(decode) && fresh(decode.data) && decode.Valid() && decode.field == c.field
    ensures decode.rowCount == c.dataShards && decode.colCount == c.dataShards
    ensures Assembled(c.field, decode.Rows(), known, missing, sol, c.dataShards)
  {
    hide Field.Valid, Partition, SolvedUpTo;
    ghost var rows := equations.Rows();
    PartitionBounds(known, missing, c.dataShards);
    decode := UnitRows(c.field, known, c.dataShards);
    SolvedStart(c.field, decode.Rows(), known, missing, sol, c.dataShards);
    for row := 0 to |missing|
      invariant fresh(decode.data) && decode.Valid() && equations.Rows() == rows
      invariant SolvedUpTo(c.field, decode.Rows(), known, missing, sol, c.dataShards, row)
    {
      assert rows[row][|missing|..] == sol[row];
      SolvedStep(c.field, decode.Rows(), known, missing, sol, c.dataShards, row);
      CopySolution(decode, missing[row], equations, row);
    }
    SolvedEnd(c.field, decode.Rows(), known, missing, sol, c.dataShards);
  }

  /** The unit rows and the first `n` solved rows are in place. */
  ghost predicate SolvedUpTo<E(!new)>(f: Field<E>, d: seq<seq<E>>, known: seq<nat>, missing: seq<nat>, sol: seq<seq<E>>, k: nat, n: nat) {
    && IsMatrix(d, k, k) && |sol| == |missing| && n <= |missing| && Partition(known, missing, k) && |known| <= k
    && (forall i :: 0 <= i < |known| ==> d[known[i]] == Unit(f, k, i))
    && (forall r :: 0 <= r < n ==> d[missing[r]] == sol[r])
  }

  lemma PartitionBounds(known: seq<nat>, missing: seq<nat>, k: nat)
    requires Partition(known, missing, k)
    ensures Ascending(known) && Below(known, k) && forall i :: 0 <= i < |missing| ==> missing[i] < k
  {
  }

  lemma SolvedStart<E(!new)>(f: Field<E>, d: seq<seq<E>>, known: seq<nat>, missing: seq<nat>, sol: seq<seq<E>>, k: nat)
    requires IsMatrix(d, k, k) && |sol| == |missing| && Partition(known, missing, k) && |known| <= k
    requires forall i :: 0 <= i < |known| ==> d[known[i]] == Unit(f, k, i)
    ensures SolvedUpTo(f, d, known, missing, sol, k, 0)
  {
  }

  lemma SolvedStep<E(!new)>(f: Field<E>, d: seq<seq<E>>, known: seq<nat>, missing: seq<nat>, sol: seq<seq<E>>, k: nat, n: nat)
    requires SolvedUpTo(f, d, known, missing, sol, k, n) && n < |missing| && |sol[n]| == k
    ensures missing[n] < |d| && SolvedUpTo(f, d[missing[n] := sol[n]], known, missing, sol, k, n + 1)
  {
    assert missing[n] in missing;
    assert forall i :: 0 <= i < |known| ==> known[i] in known;
  }

  lemma SolvedEnd<E(!new)>(f: Field<E>, d: seq<seq<E>>, known: seq<nat>, missing: seq<nat>, sol: seq<seq<E>>, k: nat)
    requires SolvedUpTo(f, d, known, missing, sol, k, |missing|)
    ensures Assembled(f, d, known, missing, sol, k)
  {
  }

  /** Copies the solved right-hand side of one equation into a row of the decode matrix. */
  method CopySolution<E(==, !new)>(decode: Matrix<E>, target: nat, equations: Matrix<E>, row: nat)
    requires decode.Valid() && equations.Valid() && decode.data != equations.data
    requires target < decode.rowCount && row < equations.rowCount && equations.colCount == equations.rowCount + decode.colCount
    modifies decode.data
    ensures decode.Rows() == old(decode.Rows())[target := equations.Rows()[row][equations.rowCount..]]
  {
    var values := equations.GetRow(row);
    var solved := values[equations.rowCount..];
    assert Patch(decode.Rows()[target], 0, solved) == solved;
    decode.SetEntries(target, 0, solved);
  }

  /** A square matrix that is zero but for the unit rows of the known data. */
  method UnitRows<E(==, !new)>(f: Field<E>, known: seq<nat>, k: nat) returns (decode: Matrix<E>)
    requires f.Valid() && |known| <= k && Ascending(known) && Below(known, k)
    ensures fresh(decode) && fresh(decode.data) && decode.Valid() && decode.field == f && decode.rowCount == k && decode.colCount == k
    ensures forall i :: 0 <= i < |known| ==> decode.Rows()[known[i]] == Unit(f, k, i)
    ensures forall j :: 0 <= j < k && j !in known ==> decode.Rows()[j] == Zeros(f, k)
  {
    hide Field.Valid;
    decode := new Matrix(f, k, k);
    for column := 0 to |known|
      invariant fresh(decode.data) && decode.Valid()
      invariant forall i :: 0 <= i < column ==> decode.Rows()[known[i]] == Unit(f, k, i)
      invariant forall j :: 0 <= j < k && (forall i :: 0 <= i < column ==> known[i] != j) ==> decode.Rows()[j] == Zeros(f, k)
    {
      assert Zeros(f, k)[column := f.one] == Unit(f, k, column);
      decode.Set(known[column], column, f.one);
    }
  }

  lemma EliminatedSolves<E(!new)>(c: Codec<E>, known: seq<nat>, parity: seq<nat>, missing: seq<nat>, m: seq<seq<E>>, sol: seq<seq<E>>)
    requires Layout(c, known, parity, missing) && |m| == |missing| && LeftIdentity(c.field, m, |missing| + c.dataShards)
    requires sol == SubRows(m, 0, |missing|, |missing|, |missing| + c.dataShards)
    requires var g := Augment(Unknowns(c, known, parity, missing), RightHand(c, known, parity, missing));
      IsMatrix(g, |missing|, |missing| + c.dataShards)
      && Kernel(c.field, g, |missing| + c.dataShards) == Kernel(c.field, m, |missing| + c.dataShards)
    ensures Solves(c.field, Unknowns(c, known, parity, missing), RightHand(c, known, parity, missing), sol, c.dataShards)
  {
    hide Kernel;
    var f, k, n := c.field, c.dataShards, |missing|;
    var a, rhs := Unknowns(c, known, parity, missing), RightHand(c, known, parity, missing);
    LeftIdentitySplit(f, m, sol, n, k);
    forall u: seq<E>, y: seq<E> | |u| == n && |y| == k ensures Apply(f, a, u) == Apply(f, rhs, y) <==> u == Apply(f, sol, y) {
      AugmentKernel(f, a, rhs, u, y);
      AugmentKernel(f, Identity(f, n), sol, u, y);
      ApplyIdentity(f, u);
    }
  }

  lemma UnsolvableSystem<E(!new)>(c: Codec<E>, known: seq<nat>, parity: seq<nat>, missing: seq<nat>, z: seq<E>)
    requires Layout(c, known, parity, missing) && Below(known + parity, c.TotalShards())
    requires var g := Augment(Unknowns(c, known, parity, missing), RightHand(c, known, parity, missing));
      IsMatrix(g, |missing|, |missing| + c.dataShards) && z in Kernel(c.field, g, |missing| + c.dataShards)
    requires !IsZero(c.field, z) && forall j :: |missing| <= j < |z| ==> z[j] == c.field.zero
    ensures !TrivialKernel(c.field, Survived(c, known + parity), c.dataShards)
  {
    var f, n := c.field, |missing|;
    var a, rhs := Unknowns(c, known, parity, missing), RightHand(c, known, parity, missing);
    var u, y := z[..n], z[n..];
    assert z == u + y && y == Zeros(f, c.dataShards);
    AugmentKernel(f, a, rhs, u, y);
    forall r | 0 <= r < n ensures Dot(f, rhs[r], y) == f.zero {
      DotNZero(f, rhs[r], y, c.dataShards);
    }
    assert Apply(f, rhs, y) == Zeros(f, n);
    var i :| 0 <= i < |z| && z[i] != f.zero;
    assert u[i] != f.zero;
    SingularSystem(c, known, parity, missing, u);
  }

  /** No surviving data: invert the selected rows. */
  method DecodeDense<E(==, !new)>(c: Codec<E>, valid: seq<nat>, byteRows: bool) returns (r: Result<Matrix<E>, Error>)
    requires c.Valid() && |valid| == c.dataShards && Below(valid, c.TotalShards())
    ensures r.Err? ==> r.error == InvalidMatrix && !TrivialKernel(c.field, Survived(c, valid), c.dataShards)
    ensures r.Ok? ==> fresh(r.value) && fresh(r.value.data) && r.value.Valid() && r.value.field == c.field
    ensures r.Ok? ==> r.value.rowCount == c.dataShards && r.value.colCount == c.dataShards
    ensures r.Ok? ==> AreInverse(c.field, Survived(c, valid), r.value.Rows(), c.dataShards)
  {
    var k := c.dataShards;
    var selected := new Matrix(c.field, k, k);
    for row := 0 to k
      invariant fresh(selected.data) && selected.Valid()
      invariant forall i :: 0 <= i < row ==> selected.Rows()[i] == c.matrix[valid[i]]
      invariant forall i :: row <= i < k ==> selected.Rows()[i] == Zeros(c.field, k)
    {
      selected.SetEntries(row, 0, c.matrix[valid[row]]);
      assert Patch(Zeros(c.field, k), 0, c.matrix[valid[row]]) == c.matrix[valid[row]];
    }
    assert selected.Rows() == Survived(c, valid);
    var inverted, _ := selected.Invert(byteRows);
    r := if inverted.Ok? then Ok(inverted.value) else Err(InvalidMatrix);
  }
}
