/** Incremental parity update. */
module Updating {
  import opened Outcomes
  import opened Fields
  import opened Vectors
  import opened Slices
  import opened Mds
  import opened Codecs
  import opened Coding
  import opened Encoding

  /** The data after the update: changed shards replaced, the others kept. */
  function Merged<E(!new)>(oldData: seq<seq<E>>, newData: seq<Option<seq<E>>>): (m: seq<seq<E>>)
    requires |oldData| == |newData|
    ensures |m| == |oldData|
    ensures forall i {:trigger m[i]} :: 0 <= i < |m| ==> m[i] == if newData[i].Some? then newData[i].value else oldData[i]
  {
    seq(|oldData|, i requires 0 <= i < |oldData| => if newData[i].Some? then newData[i].value else oldData[i])
  }

  /** The difference of every shard; zero where nothing changed. */
  function Deltas<E(!new)>(f: Field<E>, oldData: seq<seq<E>>, newData: seq<Option<seq<E>>>, len: nat): (d: seq<seq<E>>)
    requires IsMatrix(oldData, |newData|, len) && forall i :: 0 <= i < |newData| && newData[i].Some? ==> |newData[i].value| == len
    ensures IsMatrix(d, |newData|, len)
    ensures forall i {:trigger d[i]} :: 0 <= i < |d| ==> d[i] == if newData[i].Some? then AddVec(f, oldData[i], newData[i].value) else Zeros(f, len)
  {
    seq(|oldData|, i requires 0 <= i < |oldData| => if newData[i].Some? then AddVec(f, oldData[i], newData[i].value) else Zeros(f, len))
  }

  function ChangedLengths<E>(newData: seq<Option<seq<E>>>): (r: seq<nat>)
    ensures forall l :: l in r ==> exists i :: 0 <= i < |newData| && newData[i].Some? && |newData[i].value| == l
    ensures forall i :: 0 <= i < |newData| && newData[i].Some? ==> |newData[i].value| in r
    ensures r == [] <==> forall i :: 0 <= i < |newData| ==> newData[i].None?
  {
    if newData == [] then []
    else
      var rest := ChangedLengths(newData[1..]);
      assert forall i :: 1 <= i < |newData| ==> newData[i] == newData[1..][i - 1];
      if newData[0].Some? then [|newData[0].value|] + rest else rest
  }

  function UpdateCheck<E(!new)>(c: Codec<E>, oldData: seq<nat>, changed: seq<nat>, newCount: nat, parity: seq<nat>): (e: Option<Error>)
    requires c.dataShards > 0 && c.parityShards > 0
    ensures e.None? <==> |oldData| == c.dataShards && |parity| == c.parityShards && newCount == c.dataShards
                         && oldData[0] > 0 && AllOfLength(oldData, oldData[0]) && AllOfLength(parity, oldData[0]) && AllOfLength(changed, oldData[0])
  {
    var counts := Then(CheckCount(|oldData|, c.dataShards, TooFewDataShards, TooManyDataShards),
                       Then(CheckCount(|parity|, c.parityShards, TooFewParityShards, TooManyParityShards),
                            CheckCount(newCount, c.dataShards, TooFewDataShards, TooManyDataShards)));
    if counts.Some? then counts
    else
      var slices := CheckBothSlices(oldData, parity);
      if slices.Some? then slices
      else if exists i :: 0 <= i < |changed| && changed[i] != oldData[0] then Some(IncorrectShardSize)
      else None
  }

  /** Counts first, old data and parity next, the changed shards last. */
  lemma UpdateErrors<E(!new)>(c: Codec<E>, oldData: seq<nat>, changed: seq<nat>, newCount: nat, parity: seq<nat>)
    requires c.dataShards > 0 && c.parityShards > 0
    ensures var e := UpdateCheck(c, oldData, changed, newCount, parity);
      && CountReported(e, |oldData|, c.dataShards, TooFewDataShards, TooManyDataShards)
      && (|oldData| == c.dataShards ==> CountReported(e, |parity|, c.parityShards, TooFewParityShards, TooManyParityShards))
      && (|oldData| == c.dataShards && |parity| == c.parityShards ==>
            CountReported(e, newCount, c.dataShards, TooFewDataShards, TooManyDataShards))
      && (|oldData| == newCount == c.dataShards && |parity| == c.parityShards ==>
            BothReported(e, oldData, parity)
            || (BothReported(None, oldData, parity) && e == Some(IncorrectShardSize) && exists i :: 0 <= i < |changed| && changed[i] != oldData[0]))
  {
    if |oldData| == newCount == c.dataShards && |parity| == c.parityShards {
      BothSlicesErrors(oldData, parity);
    }
  }

  /** What an update leaves in the parity: the old contents plus the encoded difference. */
  ghost function Updated<E(!new)>(c: Codec<E>, parity: seq<seq<E>>, deltas: seq<seq<E>>, len: nat): (p: seq<seq<E>>)
    requires c.Valid() && IsMatrix(parity, c.parityShards, len) && IsMatrix(deltas, c.dataShards, len)
    ensures IsMatrix(p, c.parityShards, len)
    ensures forall s {:trigger p[s]} :: 0 <= s < c.parityShards ==> p[s] == AddVec(c.field, parity[s], Encoded(c, deltas, len)[s])
  {
    seq(c.parityShards, s requires 0 <= s < c.parityShards => AddVec(c.field, parity[s], Encoded(c, deltas, len)[s]))
  }

  // ----- one parity row while shard `i` is applied up to column `start`

  ghost function UpdatingRow<E(!new)>(f: Field<E>, row: seq<E>, deltas: seq<seq<E>>, was: seq<E>, i: nat, start: nat): (r: seq<E>)
    requires IsMatrix(deltas, |row|, |was|) && i < |row| && start <= |was|
    ensures |r| == |was|
  {
    AddVec(f, was, CombN(f, row, deltas, |was|, i + 1))[..start] + AddVec(f, was, CombN(f, row, deltas, |was|, i))[start..]
  }

  lemma UpdatingRowChunk<E(!new)>(f: Field<E>, row: seq<E>, deltas: seq<seq<E>>, was: seq<E>, i: nat, start: nat, end: nat)
    requires f.Valid() && IsMatrix(deltas, |row|, |was|) && i < |row| && start <= end <= |was|
    ensures var cur := UpdatingRow(f, row, deltas, was, i, start);
            Patch(cur, start, AddVec(f, cur[start..end], Scale(f, row[i], deltas[i][start..end])))
            == UpdatingRow(f, row, deltas, was, i, end)
  {
    var cur, next := UpdatingRow(f, row, deltas, was, i, start), UpdatingRow(f, row, deltas, was, i, end);
    var coded := Patch(cur, start, AddVec(f, cur[start..end], Scale(f, row[i], deltas[i][start..end])));
    forall j | 0 <= j < |was| ensures coded[j] == next[j] {
      if start <= j < end {
        f.Laws(was[j], CombN(f, row, deltas, |was|, i)[j], f.Mul(row[i], deltas[i][j]));
      }
    }
  }

  /** A chunk without changes needs no arithmetic. */
  lemma UpdatingRowSkip<E(!new)>(f: Field<E>, row: seq<E>, deltas: seq<seq<E>>, was: seq<E>, i: nat, start: nat, end: nat)
    requires f.Valid() && IsMatrix(deltas, |row|, |was|) && i < |row| && start <= end <= |was|
    requires forall j :: start <= j < end ==> deltas[i][j] == f.zero
    ensures UpdatingRow(f, row, deltas, was, i, start) == UpdatingRow(f, row, deltas, was, i, end)
  {
    UpdatingRowChunk(f, row, deltas, was, i, start, end);
    var cur := UpdatingRow(f, row, deltas, was, i, start);
    var sum := AddVec(f, cur[start..end], Scale(f, row[i], deltas[i][start..end]));
    forall j | 0 <= j < end - start ensures sum[j] == cur[start + j] {
      assert deltas[i][start..end][j] == f.zero;
      f.Laws(row[i], f.zero, f.zero);
      f.Laws(cur[start + j], f.zero, f.zero);
    }
    assert Patch(cur, start, sum) == cur;
  }

  lemma UpdatingRowEnds<E(!new)>(f: Field<E>, row: seq<E>, deltas: seq<seq<E>>, was: seq<E>, i: nat)
    requires f.Valid() && IsMatrix(deltas, |row|, |was|) && i < |row|
    ensures UpdatingRow(f, row, deltas, was, i, 0) == AddVec(f, was, CombN(f, row, deltas, |was|, i))
    ensures UpdatingRow(f, row, deltas, was, i, |was|) == AddVec(f, was, CombN(f, row, deltas, |was|, i + 1))
  {
  }

  // ----- the loops

  method AccumulateDelta<E(!new)>(f: Field<E>, coefficient: E, delta: seq<E>, out: array<E>, start: nat)
    requires start + |delta| <= out.Length
    modifies out
    ensures out[..] == WithDelta(f, old(out[..]), start, coefficient, delta)
  {
    MulSliceAdd(f, coefficient, delta, out, start);
  }

  /** One parity row with a scaled chunk added from column `start` on. */
  function WithDelta<E(!new)>(f: Field<E>, was: seq<E>, start: nat, coefficient: E, delta: seq<E>): seq<E>
    requires start + |delta| <= |was|
  {
    Patch(was, start, AddVec(f, was[start..start + |delta|], Scale(f, coefficient, delta)))
  }

  /** Adds one changed chunk into every parity shard. */
  method ApplyDelta<E(!new)>(c: Codec<E>, i: nat, delta: seq<E>, parity: seq<array<E>>, start: nat, len: nat)
    requires c.Valid() && |parity| == c.parityShards && Owners(parity, len) && start + |delta| <= len && i < c.dataShards
    modifies parity
    ensures forall s :: 0 <= s < |parity| ==>
      parity[s][..] == WithDelta(c.field, old(parity[s][..]), start, c.ParityRows()[s][i], delta)
  {
    hide WithDelta, Field.Valid;
    for row := 0 to |parity|
      invariant forall s :: 0 <= s < row ==>
        parity[s][..] == WithDelta(c.field, old(parity[s][..]), start, c.ParityRows()[s][i], delta)
      invariant forall s :: row <= s < |parity| ==> parity[s][..] == old(parity[s][..])
    {
      var coefficient := c.matrix[c.dataShards + row][i];
      AccumulateDelta(c.field, coefficient, delta, parity[row], start);
    }
  }

  /** Applies the difference of shard `i`, chunk by chunk, reusing one scratch vector. */
  method UpdateShard<E(==, !new)>(c: Codec<E>, i: nat, before: seq<E>, after: seq<E>, parity: seq<array<E>>, chunkLen: nat,
                                  ghost deltas: seq<seq<E>>, ghost was: seq<seq<E>>)
    requires c.Valid() && i < c.dataShards && |before| == |after| && chunkLen > 0
    requires |parity| == c.parityShards && Owners(parity, |before|)
    requires IsMatrix(deltas, c.dataShards, |before|) && IsMatrix(was, c.parityShards, |before|)
    requires deltas[i] == AddVec(c.field, before, after)
    requires forall s :: 0 <= s < |parity| ==> parity[s][..] == UpdatingRow(c.field, c.ParityRows()[s], deltas, was[s], i, 0)
    modifies parity
    ensures forall s :: 0 <= s < |parity| ==> parity[s][..] == UpdatingRow(c.field, c.ParityRows()[s], deltas, was[s], i, |before|)
  {
    hide UpdatingRow, WithDelta, AddVec, Field.Valid, Systematic;
    var f, len := c.field, |before|;
    var delta: seq<E> := [];
    var start := 0;
    while start < len
      invariant start <= len
      invariant forall s :: 0 <= s < |parity| ==> parity[s][..] == UpdatingRow(f, c.ParityRows()[s], deltas, was[s], i, start)
    {
      var end := if start + chunkLen < len then start + chunkLen else len;
      if before[start..end] == after[start..end] {
        SkipAll(c, deltas, was, i, before, after, start, end);
      } else {
        delta := AddVec(f, before[start..end], after[start..end]);
        AddVecSlice(f, before, after, start, end);
        ChunkAll(c, deltas, was, i, start, end);
        ApplyDelta(c, i, delta, parity, start, len);
      }
      start := end;
    }
  }

  /** One chunk brings every parity row from `start` to `end`. */
  lemma ChunkAll<E(!new)>(c: Codec<E>, deltas: seq<seq<E>>, was: seq<seq<E>>, i: nat, start: nat, end: nat)
    requires c.Valid() && i < c.dataShards && |deltas| == c.dataShards && start <= end <= |deltas[i]|
    requires IsMatrix(deltas, c.dataShards, |deltas[i]|) && IsMatrix(was, c.parityShards, |deltas[i]|)
    ensures forall s :: 0 <= s < c.parityShards ==>
      WithDelta(c.field, UpdatingRow(c.field, c.ParityRows()[s], deltas, was[s], i, start), start, c.ParityRows()[s][i], deltas[i][start..end])
      == UpdatingRow(c.field, c.ParityRows()[s], deltas, was[s], i, end)
  {
    hide UpdatingRow, Field.Valid;
    forall s | 0 <= s < c.parityShards
      ensures WithDelta(c.field, UpdatingRow(c.field, c.ParityRows()[s], deltas, was[s], i, start), start, c.ParityRows()[s][i], deltas[i][start..end])
           == UpdatingRow(c.field, c.ParityRows()[s], deltas, was[s], i, end)
    {
      UpdatingRowChunk(c.field, c.ParityRows()[s], deltas, was[s], i, start, end);
    }
  }

  lemma SkipAll<E(!new)>(c: Codec<E>, deltas: seq<seq<E>>, was: seq<seq<E>>, i: nat, before: seq<E>, after: seq<E>, start: nat, end: nat)
    requires c.Valid() && i < c.dataShards && |before| == |after| && start <= end <= |before|
    requires IsMatrix(deltas, c.dataShards, |before|) && IsMatrix(was, c.parityShards, |before|)
    requires deltas[i] == AddVec(c.field, before, after) && before[start..end] == after[start..end]
    ensures forall s :: 0 <= s < |was| ==>
      UpdatingRow(c.field, c.ParityRows()[s], deltas, was[s], i, start) == UpdatingRow(c.field, c.ParityRows()[s], deltas, was[s], i, end)
  {
    forall j | start <= j < end ensures deltas[i][j] == c.field.zero {
      assert before[start..end][j - start] == after[start..end][j - start];
      c.field.AddCancel(before[j], after[j]);
    }
    forall s | 0 <= s < |was|
      ensures UpdatingRow(c.field, c.ParityRows()[s], deltas, was[s], i, start) == UpdatingRow(c.field, c.ParityRows()[s], deltas, was[s], i, end)
    {
      UpdatingRowSkip(c.field, c.ParityRows()[s], deltas, was[s], i, start, end);
    }
  }

  lemma ShardEnds<E(!new)>(c: Codec<E>, deltas: seq<seq<E>>, was: seq<seq<E>>, i: nat, len: nat, same: bool)
    requires c.Valid() && i < c.dataShards && IsMatrix(deltas, c.dataShards, len) && IsMatrix(was, c.parityShards, len)
    requires same ==> deltas[i] == Zeros(c.field, len)
    ensures forall s :: 0 <= s < c.parityShards ==>
      var row := c.ParityRows()[s];
      && UpdatingRow(c.field, row, deltas, was[s], i, 0) == AddVec(c.field, was[s], CombN(c.field, row, deltas, len, i))
      && UpdatingRow(c.field, row, deltas, was[s], i, len) == AddVec(c.field, was[s], CombN(c.field, row, deltas, len, i + 1))
      && (same ==> UpdatingRow(c.field, row, deltas, was[s], i, 0) == UpdatingRow(c.field, row, deltas, was[s], i, len))
  {
    forall s | 0 <= s < c.parityShards
      ensures var row := c.ParityRows()[s];
        && UpdatingRow(c.field, row, deltas, was[s], i, 0) == AddVec(c.field, was[s], CombN(c.field, row, deltas, len, i))
        && UpdatingRow(c.field, row, deltas, was[s], i, len) == AddVec(c.field, was[s], CombN(c.field, row, deltas, len, i + 1))
        && (same ==> UpdatingRow(c.field, row, deltas, was[s], i, 0) == UpdatingRow(c.field, row, deltas, was[s], i, len))
    {
      hide UpdatingRow;
      UpdatingRowEnds(c.field, c.ParityRows()[s], deltas, was[s], i);
      if same {
        UpdatingRowSkip(c.field, c.ParityRows()[s], deltas, was[s], i, 0, len);
      }
    }
  }

  /** The parity after the differences of the first `i` shards have been applied. */
  ghost function Applied<E(!new)>(c: Codec<E>, was: seq<seq<E>>, deltas: seq<seq<E>>, len: nat, i: nat): (p: seq<seq<E>>)
    requires c.Valid() && IsMatrix(was, c.parityShards, len) && IsMatrix(deltas, c.dataShards, len) && i <= c.dataShards
    ensures IsMatrix(p, c.parityShards, len)
    ensures forall s {:trigger p[s]} :: 0 <= s < c.parityShards ==>
      p[s] == AddVec(c.field, was[s], CombN(c.field, c.ParityRows()[s], deltas, len, i))
  {
    seq(c.parityShards, s requires 0 <= s < c.parityShards =>
      AddVec(c.field, was[s], CombN(c.field, c.ParityRows()[s], deltas, len, i)))
  }

  /** Nothing applied leaves the parity as it was; everything applied is the update. */
  lemma AppliedEnds<E(!new)>(c: Codec<E>, was: seq<seq<E>>, deltas: seq<seq<E>>, len: nat)
    requires c.Valid() && IsMatrix(was, c.parityShards, len) && IsMatrix(deltas, c.dataShards, len)
    ensures Applied(c, was, deltas, len, 0) == was
    ensures Applied(c, was, deltas, len, c.dataShards) == Updated(c, was, deltas, len)
  {
    forall s | 0 <= s < c.parityShards ensures was[s] == AddVec(c.field, was[s], CombN(c.field, c.ParityRows()[s], deltas, len, 0)) {
      AddZeros(c.field, was[s]);
    }
  }

  /** One shard of the general path: skipped when unchanged. */
  method UpdateOne<E(==, !new)>(c: Codec<E>, i: nat, before: seq<E>, after: Option<seq<E>>, parity: seq<array<E>>, chunkLen: nat,
                                ghost deltas: seq<seq<E>>, ghost was: seq<seq<E>>)
    requires c.Valid() && i < c.dataShards && chunkLen > 0 && (after.Some? ==> |after.value| == |before|)
    requires |parity| == c.parityShards && Owners(parity, |before|)
    requires IsMatrix(deltas, c.dataShards, |before|) && IsMatrix(was, c.parityShards, |before|)
    requires deltas[i] == if after.Some? then AddVec(c.field, before, after.value) else Zeros(c.field, |before|)
    requires Views(parity) == Applied(c, was, deltas, |before|, i)
    modifies parity
    ensures Views(parity) == Applied(c, was, deltas, |before|, i + 1)
  {
    hide UpdatingRow, CombN, Field.Valid;
    ShardEnds(c, deltas, was, i, |before|, after.None?);
    assert forall s :: 0 <= s < |parity| ==> parity[s][..] == Views(parity)[s];
    if after.Some? {
      UpdateShard(c, i, before, after.value, parity, chunkLen, deltas, was);
    }
  }

  /** The general path: every changed shard in turn. */
  method UpdateGeneral<E(==, !new)>(c: Codec<E>, oldData: seq<seq<E>>, newData: seq<Option<seq<E>>>, parity: seq<array<E>>, len: nat)
    requires c.Valid() && len > 0 && IsMatrix(oldData, c.dataShards, len) && |newData| == c.dataShards
    requires forall i :: 0 <= i < |newData| && newData[i].Some? ==> |newData[i].value| == len
    requires |parity| == c.parityShards && Owners(parity, len)
    modifies parity
    ensures Views(parity) == Updated(c, old(Views(parity)), Deltas(c.field, oldData, newData, len), len)
  {
    hide Deltas, Applied, Updated, Views, Field.Valid;
    ghost var was, deltas := Views(parity), Deltas(c.field, oldData, newData, len);
    AppliedEnds(c, was, deltas, len);
    var chunkLen := CodeChunkLen(len);
    for i := 0 to |oldData|
      invariant Views(parity) == Applied(c, was, deltas, len, i)
    {
      UpdateOne(c, i, oldData[i], newData[i], parity, chunkLen, deltas, was);
    }
  }

  lemma AddZeros<E(!new)>(f: Field<E>, v: seq<E>)
    requires f.Valid()
    ensures AddVec(f, v, Zeros(f, |v|)) == v
  {
    forall j | 0 <= j < |v| ensures f.Add(v[j], f.zero) == v[j] {
      f.Laws(v[j], f.zero, f.zero);
    }
  }

  /** The single-parity path: adds both versions of every changed shard. */
  method UpdateFastOneParity<E(!new)>(f: Field<E>, oldData: seq<seq<E>>, newData: seq<Option<seq<E>>>, parity: array<E>)
    requires f.Valid() && IsMatrix(oldData, |newData|, parity.Length)
    requires forall i :: 0 <= i < |newData| && newData[i].Some? ==> |newData[i].value| == parity.Length
    modifies parity
    ensures parity[..] == AddVec(f, old(parity[..]), Comb(f, Ones(f, |newData|), Deltas(f, oldData, newData, parity.Length), parity.Length))
  {
    hide AddVec, CombN, Deltas, Ones, Zeros, Field.Valid;
    var len := parity.Length;
    ghost var was, deltas, ones := parity[..], Deltas(f, oldData, newData, len), Ones(f, |newData|);
    AddZeros(f, was);
    CombNEmpty(f, ones, deltas, len);
    for i := 0 to |oldData|
      invariant parity[..] == AddVec(f, was, CombN(f, ones, deltas, len, i))
    {
      OnesStep(f, deltas, len, i);
      AddVecAssoc(f, was, CombN(f, ones, deltas, len, i), deltas[i]);
      if newData[i].Some? {
        AddDifference(f, oldData[i], newData[i].value, parity);
      } else {
        AddZeros(f, parity[..]);
      }
    }
  }

  lemma AddVecAssoc<E(!new)>(f: Field<E>, u: seq<E>, v: seq<E>, w: seq<E>)
    requires f.Valid() && |u| == |v| == |w|
    ensures AddVec(f, AddVec(f, u, v), w) == AddVec(f, u, AddVec(f, v, w))
  {
    forall j | 0 <= j < |u| ensures AddVec(f, AddVec(f, u, v), w)[j] == AddVec(f, u, AddVec(f, v, w))[j] {
      f.Laws(u[j], v[j], w[j]);
    }
  }

  method AddDifference<E(!new)>(f: Field<E>, before: seq<E>, after: seq<E>, out: array<E>)
    requires |before| == |after| == out.Length
    modifies out
    ensures out[..] == AddVec(f, old(out[..]), AddVec(f, before, after))
  {
    for j := 0 to out.Length
      invariant forall l :: 0 <= l < j ==> out[l] == f.Add(old(out[l]), f.Add(before[l], after[l]))
      invariant forall l :: j <= l < out.Length ==> out[l] == old(out[l])
    {
      out[j] := f.Add(out[j], f.Add(before[j], after[j]));
    }
  }

  lemma AddVecSlice<E(!new)>(f: Field<E>, u: seq<E>, v: seq<E>, start: nat, end: nat)
    requires |u| == |v| && start <= end <= |u|
    ensures AddVec(f, u[start..end], v[start..end]) == AddVec(f, u, v)[start..end]
  {
  }

  /** The public operation.  Nothing is written before every check has passed. */
  method Update<E(==, !new)>(c: Codec<E>, oldData: seq<seq<E>>, newData: seq<Option<seq<E>>>, parity: seq<array<E>>) returns (r: Result<(), Error>)
    requires c.Valid() && Different(parity)
    modifies parity
    ensures r.Err? <==> UpdateCheck(c, Lengths(oldData), ChangedLengths(newData), |newData|, BufferLengths(parity)).Some?
    ensures r.Err? ==> r.error == UpdateCheck(c, Lengths(oldData), ChangedLengths(newData), |newData|, BufferLengths(parity)).value
    ensures r.Err? ==> Views(parity) == old(Views(parity))
    ensures r.Ok? ==> UpdateReady(c, oldData, newData, parity)
    ensures r.Ok? ==> Views(parity) == Updated(c, old(Views(parity)), Deltas(c.field, oldData, newData, |oldData[0]|), |oldData[0]|)
  {
    var check := UpdateCheck(c, Lengths(oldData), ChangedLengths(newData), |newData|, BufferLengths(parity));
    if check.Some? {
      return Err(check.value);
    }
    var len := |oldData[0]|;
    ReadyFromCheck(c, oldData, newData, parity);
    ghost var was, deltas := Views(parity), Deltas(c.field, oldData, newData, len);
    if ChangedLengths(newData) == [] {
      NothingChanged(c, was, deltas, len);
      return Ok(());
    }
    if c.FastOneParityEnabled() {
      UpdateFastOneParity(c.field, oldData, newData, parity[0]);
      assert c.ParityRows()[0] == Ones(c.field, c.dataShards);
      assert Views(parity) == Updated(c, was, deltas, len);
      return Ok(());
    }
    UpdateGeneral(c, oldData, newData, parity, len);
    r := Ok(());
  }

  ghost predicate UpdateReady<E(!new)>(c: Codec<E>, oldData: seq<seq<E>>, newData: seq<Option<seq<E>>>, parity: seq<array<E>>) {
    && c.dataShards > 0 && |oldData| == c.dataShards && |newData| == c.dataShards && |parity| == c.parityShards
    && IsMatrix(oldData, c.dataShards, |oldData[0]|) && Owners(parity, |oldData[0]|) && |oldData[0]| > 0
    && forall i :: 0 <= i < |newData| && newData[i].Some? ==> |newData[i].value| == |oldData[0]|
  }

  lemma ReadyFromCheck<E(!new)>(c: Codec<E>, oldData: seq<seq<E>>, newData: seq<Option<seq<E>>>, parity: seq<array<E>>)
    requires c.Valid() && Different(parity)
    requires UpdateCheck(c, Lengths(oldData), ChangedLengths(newData), |newData|, BufferLengths(parity)).None?
    ensures UpdateReady(c, oldData, newData, parity)
  {
    hide UpdateCheck, ChangedLengths, Field.Valid;
    var len := |oldData[0]|;
    assert Lengths(oldData)[0] == len;
    forall i | 0 <= i < |oldData| ensures |oldData[i]| == len {
      assert Lengths(oldData)[i] == |oldData[i]|;
    }
    forall i | 0 <= i < |parity| ensures parity[i].Length == len {
      assert BufferLengths(parity)[i] == parity[i].Length;
    }
    forall i | 0 <= i < |newData| && newData[i].Some? ensures |newData[i].value| == len {
      assert |newData[i].value| in ChangedLengths(newData);
      var l :| 0 <= l < |ChangedLengths(newData)| && ChangedLengths(newData)[l] == |newData[i].value|;
    }
  }

  lemma NothingChanged<E(!new)>(c: Codec<E>, was: seq<seq<E>>, deltas: seq<seq<E>>, len: nat)
    requires c.Valid() && IsMatrix(was, c.parityShards, len) && IsMatrix(deltas, c.dataShards, len)
    requires forall i :: 0 <= i < c.dataShards ==> deltas[i] == Zeros(c.field, len)
    ensures Updated(c, was, deltas, len) == was
  {
    forall s | 0 <= s < c.parityShards ensures Updated(c, was, deltas, len)[s] == was[s] {
      CombOfZeros(c.field, c.ParityRows()[s], deltas, len, c.dataShards);
      assert Encoded(c, deltas, len)[s] == Zeros(c.field, len);
      AddZeros(c.field, was[s]);
    }
  }

  lemma {:induction false} CombOfZeros<E(!new)>(f: Field<E>, row: seq<E>, m: seq<seq<E>>, w: nat, n: nat)
    requires f.Valid() && n <= |row| && n <= |m| && forall i :: 0 <= i < n ==> |m[i]| == w && m[i] == Zeros(f, w)
    ensures CombN(f, row, m, w, n) == Zeros(f, w)
  {
    if n > 0 {
      CombOfZeros(f, row, m, w, n - 1);
      f.Laws(row[n - 1], f.zero, f.zero);
      f.Laws(f.zero, f.zero, f.zero);
    }
  }

  // ----- what it means

  /** Combinations are linear in the combined rows. */
  lemma {:induction false} CombNSum<E(!new)>(f: Field<E>, c: seq<E>, a: seq<seq<E>>, b: seq<seq<E>>, d: seq<seq<E>>, w: nat, n: nat)
    requires f.Valid() && n <= |c| && n <= |a| && n <= |b| && n <= |d|
    requires forall i :: 0 <= i < n ==> |a[i]| == w && |b[i]| == w && |d[i]| == w && d[i] == AddVec(f, a[i], b[i])
    ensures CombN(f, c, d, w, n) == AddVec(f, CombN(f, c, a, w, n), CombN(f, c, b, w, n))
  {
    if n == 0 {
      f.Laws(f.zero, f.zero, f.zero);
    } else {
      CombNSum(f, c, a, b, d, w, n - 1);
      forall j | 0 <= j < w ensures CombN(f, c, d, w, n)[j] == f.Add(CombN(f, c, a, w, n)[j], CombN(f, c, b, w, n)[j]) {
        f.Laws(c[n - 1], a[n - 1][j], b[n - 1][j]);
        f.AddSwap(CombN(f, c, a, w, n - 1)[j], CombN(f, c, b, w, n - 1)[j], f.Mul(c[n - 1], a[n - 1][j]), f.Mul(c[n - 1], b[n - 1][j]));
      }
    }
  }

  /** From any parity an update adds the old and the new encoding. */
  lemma UpdateAddsEncodings<E(!new)>(c: Codec<E>, parity: seq<seq<E>>, oldData: seq<seq<E>>, newData: seq<Option<seq<E>>>, len: nat)
    requires c.Valid() && IsMatrix(parity, c.parityShards, len) && IsMatrix(oldData, c.dataShards, len) && |newData| == c.dataShards
    requires forall i :: 0 <= i < |newData| && newData[i].Some? ==> |newData[i].value| == len
    ensures forall s :: 0 <= s < c.parityShards ==>
      Updated(c, parity, Deltas(c.field, oldData, newData, len), len)[s]
      == AddVec(c.field, parity[s], AddVec(c.field, Encoded(c, oldData, len)[s], Encoded(c, Merged(oldData, newData), len)[s]))
  {
    var deltas, merged := Deltas(c.field, oldData, newData, len), Merged(oldData, newData);
    forall i | 0 <= i < c.dataShards ensures deltas[i] == AddVec(c.field, oldData[i], merged[i]) {
      if newData[i].None? {
        forall j | 0 <= j < len ensures c.field.Add(oldData[i][j], oldData[i][j]) == c.field.zero {
          c.field.AddCancel(oldData[i][j], oldData[i][j]);
        }
      }
    }
    forall s | 0 <= s < c.parityShards
      ensures Encoded(c, deltas, len)[s] == AddVec(c.field, Encoded(c, oldData, len)[s], Encoded(c, merged, len)[s])
    {
      CombNSum(c.field, c.ParityRows()[s], oldData, merged, deltas, len, c.dataShards);
    }
  }

  /** Starting from the encoding of the old data, an update yields the encoding of the new data. */
  lemma UpdateIsExact<E(!new)>(c: Codec<E>, oldData: seq<seq<E>>, newData: seq<Option<seq<E>>>, len: nat)
    requires c.Valid() && IsMatrix(oldData, c.dataShards, len) && |newData| == c.dataShards
    requires forall i :: 0 <= i < |newData| && newData[i].Some? ==> |newData[i].value| == len
    ensures Updated(c, Encoded(c, oldData, len), Deltas(c.field, oldData, newData, len), len) == Encoded(c, Merged(oldData, newData), len)
  {
    var p, q := Encoded(c, oldData, len), Encoded(c, Merged(oldData, newData), len);
    var u := Updated(c, p, Deltas(c.field, oldData, newData, len), len);
    UpdateAddsEncodings(c, p, oldData, newData, len);
    forall s | 0 <= s < c.parityShards ensures u[s] == q[s] {
      forall j | 0 <= j < len ensures u[s][j] == q[s][j] {
        var f := c.field;
        f.Laws(p[s][j], p[s][j], q[s][j]);
        f.Laws(p[s][j], p[s][j], f.zero);
        f.Laws(q[s][j], f.zero, f.zero);
      }
    }
  }
}
