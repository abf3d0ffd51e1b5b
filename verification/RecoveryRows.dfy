/** Coefficient rows of a recovery: every row applied to the survivors yields its target shard. */
module RecoveryRows {
  import opened Fields
  import opened Vectors
  import opened Kernels
  import opened Mds
  import opened Codecs
  import opened Indices
  import opened DecodeMatrices
  import opened RecoveryShapes

  /** `k` ascending survivors and the erasures between them. */
  ghost predicate Survivors<E(!new)>(c: Codec<E>, valid: seq<nat>, invalid: seq<nat>) {
    && c.dataShards > 0 && |valid| == c.dataShards
    && Ascending(valid) && Below(valid, c.TotalShards())
    && Ascending(invalid) && Below(invalid, c.TotalShards())
    && forall i: nat :: i <= valid[c.dataShards - 1] ==> ((i in valid) <==> (i !in invalid))
  }

  /** A computed shape describes the survivors. */
  lemma ShapeSurvivors<E(!new)>(c: Codec<E>, lengths: seq<ShardLength>)
    requires c.dataShards > 0 && |lengths| == c.TotalShards() && ShapeOf(c.dataShards, lengths).Ok?
    ensures var shape := ShapeOf(c.dataShards, lengths).value;
      Survivors(c, shape.validIndices, shape.invalidIndices) && shape.numberPresent >= c.dataShards
  {
    hide Present, Missing, Scan;
    var n, k := |lengths|, c.dataShards;
    var all, valid := Present(lengths, n), Present(lengths, n)[..k];
    ListMembers(lengths, n);
    ScanKnows(lengths, n);
    assert all[k - 1] in all;
    forall i: nat | i <= valid[k - 1] ensures i in valid <==> i !in Missing(lengths, n) {
      if i in all {
        var j :| 0 <= j < |all| && all[j] == i;
        assert valid[j] == i;
      }
    }
  }

  lemma {:induction false} AscendingAtLeast(s: seq<nat>, j: nat)
    requires Ascending(s) && j < |s|
    ensures s[j] >= j
  {
    if j > 0 {
      AscendingAtLeast(s, j - 1);
    }
  }

  /** How many survivors are data shards. */
  function KnownCount(valid: seq<nat>, k: nat): nat
    requires Ascending(valid)
  {
    PartitionPoint(valid, k)
  }

  function MissingData(invalid: seq<nat>, k: nat): seq<nat>
    requires Ascending(invalid)
  {
    invalid[..PartitionPoint(invalid, k)]
  }

  /** The surviving and the missing data shards share out the data. */
  lemma DataPartition<E(!new)>(c: Codec<E>, valid: seq<nat>, invalid: seq<nat>)
    requires c.Valid() && Survivors(c, valid, invalid)
    ensures Partition(valid[..KnownCount(valid, c.dataShards)], MissingData(invalid, c.dataShards), c.dataShards)
    ensures var a := KnownCount(valid, c.dataShards);
      Layout(c, valid[..a], valid[a..], MissingData(invalid, c.dataShards))
  {
    var k := c.dataShards;
    var a, b := KnownCount(valid, k), PartitionPoint(invalid, k);
    var known, missing := valid[..a], invalid[..b];
    AscendingAtLeast(valid, k - 1);
    forall i | 0 <= i < k ensures (i in known) != (i in missing) {
      PrefixMembers(valid, k, i);
      PrefixMembers(invalid, k, i);
    }
    PartitionSize(known, missing, k);
  }

  lemma PrefixMembers(s: seq<nat>, bound: nat, i: nat)
    requires Ascending(s) && i < bound
    ensures i in s[..PartitionPoint(s, bound)] <==> i in s
  {
    if i in s {
      var j :| 0 <= j < |s| && s[j] == i;
      assert s[..PartitionPoint(s, bound)][j] == i;
    }
  }

  /** A row that recovers shard `target` from the survivors. */
  ghost predicate Recovers<E(!new)>(c: Codec<E>, valid: seq<nat>, row: seq<E>, target: nat)
    requires c.Valid() && |valid| == c.dataShards && Below(valid, c.TotalShards()) && target < c.TotalShards()
  {
    |row| == c.dataShards && Comb(c.field, row, Survived(c, valid), c.dataShards) == c.matrix[target]
  }

  /** Applied to the survivors of any data, such a row gives the lost shard of that data. */
  lemma RecoversShard<E(!new)>(c: Codec<E>, valid: seq<nat>, row: seq<E>, target: nat, data: seq<seq<E>>, len: nat)
    requires c.Valid() && |valid| == c.dataShards && Below(valid, c.TotalShards()) && target < c.TotalShards()
    requires Recovers(c, valid, row, target) && IsMatrix(data, c.dataShards, len)
    ensures Comb(c.field, row, MatMul(c.field, Survived(c, valid), data, len), len) == Comb(c.field, c.matrix[target], data, len)
  {
    CombAssoc(c.field, row, Survived(c, valid), data, len);
  }

  /** The rows of the inverse recover the data shards. */
  lemma DecodeRowRecovers<E(!new)>(c: Codec<E>, valid: seq<nat>, d: seq<seq<E>>, target: nat)
    requires c.Valid() && |valid| == c.dataShards && Below(valid, c.TotalShards()) && target < c.dataShards
    requires AreInverse(c.field, Survived(c, valid), d, c.dataShards)
    ensures Recovers(c, valid, d[target], target)
  {
    assert MatMul(c.field, d, Survived(c, valid), c.dataShards)[target] == Unit(c.field, c.dataShards, target);
  }

  /** A data shard that survives as input `column` is copied: its row of the inverse is the unit row there. */
  lemma SurvivingRowIsUnit<E(!new)>(c: Codec<E>, valid: seq<nat>, d: seq<seq<E>>, column: nat)
    requires c.Valid() && |valid| == c.dataShards && Below(valid, c.TotalShards()) && column < c.dataShards
    requires AreInverse(c.field, Survived(c, valid), d, c.dataShards) && valid[column] < c.dataShards
    ensures d[valid[column]] == Unit(c.field, c.dataShards, column)
  {
    var f, k := c.field, c.dataShards;
    assert MatMul(f, Survived(c, valid), d, k)[column] == Unit(f, k, column);
    CombUnit(f, d, k, valid[column]);
  }

  // ----- composed parity rows

  /** A left fold from `start`, as the composition accumulates. */
  function FoldTerms<E(!new)>(f: Field<E>, start: E, u: seq<E>, v: seq<E>, n: nat): E
    requires n <= |u| && n <= |v|
  {
    if n == 0 then start else f.Add(FoldTerms(f, start, u, v, n - 1), f.Mul(u[n - 1], v[n - 1]))
  }

  lemma {:induction false} FoldIsDot<E(!new)>(f: Field<E>, start: E, u: seq<E>, v: seq<E>, n: nat)
    requires f.Valid() && n <= |u| && n <= |v|
    ensures FoldTerms(f, start, u, v, n) == f.Add(start, DotN(f, u, v, n))
  {
    if n == 0 {
      f.Laws(start, f.zero, f.zero);
    } else {
      FoldIsDot(f, start, u, v, n - 1);
      f.Laws(start, DotN(f, u, v, n - 1), f.Mul(u[n - 1], v[n - 1]));
    }
  }

  /** The coefficient of one survivor in a composed parity row: its own term if it is data, plus
      what it contributes through the missing data. */
  function ComposedEntry<E(!new)>(c: Codec<E>, parity: seq<E>, valid: seq<nat>, missing: seq<nat>, d: seq<seq<E>>, column: nat): E
    requires |parity| == c.dataShards && column < |valid| == c.dataShards && Below(missing, c.dataShards) && IsMatrix(d, c.dataShards, c.dataShards)
  {
    var known := if valid[column] < c.dataShards then parity[valid[column]] else c.field.zero;
    FoldTerms(c.field, known, Gather(parity, missing), Gather(Col(d, column), missing), |missing|)
  }

  lemma ComposedEntryIsProduct<E(!new)>(c: Codec<E>, parity: seq<E>, valid: seq<nat>, invalid: seq<nat>, d: seq<seq<E>>, column: nat)
    requires c.Valid() && Survivors(c, valid, invalid) && |parity| == c.dataShards && column < c.dataShards
    requires AreInverse(c.field, Survived(c, valid), d, c.dataShards)
    ensures Below(MissingData(invalid, c.dataShards), c.dataShards)
    ensures ComposedEntry(c, parity, valid, MissingData(invalid, c.dataShards), d, column) == Comb(c.field, parity, d, c.dataShards)[column]
  {
    var f, k := c.field, c.dataShards;
    var a, missing, col := KnownCount(valid, k), MissingData(invalid, k), Col(d, column);
    var known := valid[..a];
    DataPartition(c, valid, invalid);
    CombAt(f, parity, d, k, column);
    DotPartition(f, parity, col, known, missing, k);
    var u, v := Gather(parity, known), Gather(col, known);
    forall i | 0 <= i < a ensures v[i] == if i == column then f.one else f.zero {
      SurvivingRowIsUnit(c, valid, d, i);
      assert v[i] == d[known[i]][column];
    }
    var own := if valid[column] < k then parity[valid[column]] else f.zero;
    assert Dot(f, u, v) == own by {
      if column < a {
        DotNSingle(f, u, v, a, column);
        f.Laws(u[column], f.one, f.one);
      } else {
        DotNZero(f, u, v, a);
      }
    }
    FoldIsDot(f, own, Gather(parity, missing), Gather(col, missing), |missing|);
  }

  /** A parity row composed from the inverse recovers its parity shard directly. */
  lemma ComposedRowRecovers<E(!new)>(c: Codec<E>, target: nat, valid: seq<nat>, invalid: seq<nat>, d: seq<seq<E>>, row: seq<E>)
    requires c.Valid() && Survivors(c, valid, invalid) && target < c.TotalShards() && |row| == c.dataShards
    requires AreInverse(c.field, Survived(c, valid), d, c.dataShards) && Below(MissingData(invalid, c.dataShards), c.dataShards)
    requires forall j :: 0 <= j < c.dataShards ==>
      row[j] == ComposedEntry(c, c.matrix[target], valid, MissingData(invalid, c.dataShards), d, j)
    ensures Recovers(c, valid, row, target)
  {
    var f, k, parity := c.field, c.dataShards, c.matrix[target];
    forall j | 0 <= j < k ensures row[j] == Comb(f, parity, d, k)[j] {
      ComposedEntryIsProduct(c, parity, valid, invalid, d, j);
    }
    assert row == Comb(f, parity, d, k);
    CombAssoc(f, parity, d, Survived(c, valid), k);
    CombIdentity(f, parity);
  }

  /** In an MDS code every choice of `k` survivors can be inverted. */
  lemma MdsSurvivors<E(!new)>(c: Codec<E>, valid: seq<nat>)
    requires c.Valid() && c.Mds() && |valid| == c.dataShards && Ascending(valid) && Below(valid, c.TotalShards())
    ensures TrivialKernel(c.field, Survived(c, valid), c.dataShards)
  {
    var f, k := c.field, c.dataShards;
    forall z: seq<E> | z in Kernel(f, Survived(c, valid), k) ensures IsZero(f, z) {
      forall i | 0 <= i < k ensures Dot(f, c.matrix[valid[i]], z) == f.zero {
        assert Dot(f, Survived(c, valid)[i], z) == f.zero;
      }
      assert Kills(f, c.matrix, valid, z);
      assert Selection(valid, c.TotalShards(), k);
    }
  }
}
