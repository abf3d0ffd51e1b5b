/** Executing a recovery plan: outputs are initialized and completed one at a time. */
module Reconstruction {
  import opened Outcomes
  import opened Fields
  import opened Vectors
  import opened Kernels
  import opened Codecs
  import opened Coding
  import opened Encoding
  import opened Verification
  import opened Indices
  import opened DecodeMatrices
  import opened InversionCaches
  import opened RecoveryShapes
  import opened RecoveryRows
  import opened RecoveryPlans
  import opened ShardContainers

  // ----- one output

  /** Initializes a missing destination and computes its contents at once, so that a shard is
      never marked present with stale contents. */
  method RestoreShard<E(!new)>(f: Field<E>, slot: Shard<E>, len: nat, row: seq<E>, inputs: seq<seq<E>>) returns (r: Result<(), Error>)
    requires f.Valid() && !slot.present && 0 < |inputs| && IsMatrix(inputs, |row|, len)
    modifies slot
    ensures r.Err? <==> !old(slot.Accepts(len))
    ensures r.Err? ==> r.error == IncorrectShardSize && slot.Value() == None
    ensures r.Ok? ==> slot.Value() == Some(Comb(f, row, inputs, len))
    ensures slot.Accepts(len) == old(slot.Accepts(len))
  {
    var destination := slot.GetOrInitialize(f.zero, len);
    if destination.Err? {
      return Err(destination.error);
    }
    if |slot.data| != len {
      return Err(IncorrectShardSize);
    }
    var stale := slot.data;
    var output := new E[len](i requires 0 <= i < len => stale[i]);
    CodeSomeSlices(f, [row], inputs, [output], len);
    assert Views([output])[0] == output[..];
    slot.data := output[..];
    r := Ok(());
  }

  /** The same on a shard list: only the target changes. */
  method RestoreTarget<E(!new)>(f: Field<E>, shards: seq<Shard<E>>, target: nat, len: nat, row: seq<E>, inputs: seq<seq<E>>)
    returns (r: Result<(), Error>)
    requires f.Valid() && Distinct(shards) && target < |shards| && Snapshot(shards)[target].None?
    requires 0 < |inputs| && IsMatrix(inputs, |row|, len)
    modifies shards
    ensures Accepting(shards, len) == old(Accepting(shards, len))
    ensures r.Err? <==> !old(Accepting(shards, len))[target]
    ensures r.Err? ==> r.error == IncorrectShardSize && Snapshot(shards) == old(Snapshot(shards))
    ensures r.Ok? ==> Snapshot(shards) == old(Snapshot(shards))[target := Some(Comb(f, row, inputs, len))]
  {
    r := RestoreShard(f, shards[target], len, row, inputs);
  }

  /** Contents after the first `n` targets have received their values. */
  ghost function Filled<E>(was: Contents<E>, targets: seq<nat>, values: seq<seq<E>>, n: nat): (v: Contents<E>)
    requires n <= |targets| == |values| && Below(targets, |was|)
    ensures |v| == |was|
  {
    if n == 0 then was else Filled(was, targets, values, n - 1)[targets[n - 1] := Some(values[n - 1])]
  }

  lemma {:induction false} FilledAt<E>(was: Contents<E>, targets: seq<nat>, values: seq<seq<E>>, n: nat, i: nat)
    requires n <= |targets| == |values| && Below(targets, |was|) && Ascending(targets) && i < |was|
    ensures forall j :: 0 <= j < n && targets[j] == i ==> Filled(was, targets, values, n)[i] == Some(values[j])
    ensures (forall j :: 0 <= j < n ==> targets[j] != i) ==> Filled(was, targets, values, n)[i] == was[i]
  {
    if n > 0 {
      FilledAt(was, targets, values, n - 1, i);
    }
  }

  /** Completes the targets in order and stops at the first destination that rejects its buffer. */
  method RestoreTargets<E(!new)>(f: Field<E>, shards: seq<Shard<E>>, targets: seq<nat>, len: nat, rows: seq<seq<E>>, inputs: seq<seq<E>>)
    returns (r: Result<(), Error>, ghost done: nat)
    requires f.Valid() && Distinct(shards) && Ascending(targets) && Below(targets, |shards|)
    requires forall j :: 0 <= j < |targets| ==> Snapshot(shards)[targets[j]].None?
    requires 0 < |inputs| && IsMatrix(inputs, |inputs|, len) && IsMatrix(rows, |targets|, |inputs|)
    modifies shards
    ensures done <= |targets| && Snapshot(shards) == Filled(old(Snapshot(shards)), targets, MatMul(f, rows, inputs, len), done)
    ensures r.Ok? <==> done == |targets|
    ensures r.Err? ==> r.error == IncorrectShardSize && !Accepting(shards, len)[targets[done]]
    ensures r.Ok? ==> forall j :: 0 <= j < |targets| ==> Accepting(shards, len)[targets[j]]
    ensures Accepting(shards, len) == old(Accepting(shards, len))
  {
    hide Filled, MatMul, Field.Valid, Ascending, Comb, Accepting, Snapshot, Distinct;
    ghost var was, values := Snapshot(shards), MatMul(f, rows, inputs, len);
    FilledStart(was, targets, values);
    done := 0;
    for j := 0 to |targets|
      invariant done == j && Snapshot(shards) == Filled(was, targets, values, j)
      invariant Accepting(shards, len) == old(Accepting(shards, len))
      invariant forall l :: 0 <= l < j ==> Accepting(shards, len)[targets[l]]
    {
      StillMissing(was, targets, values, j);
      FilledStep(was, targets, values, j);
      var one := RestoreTarget(f, shards, targets[j], len, rows[j], inputs);
      if one.Err? {
        return Err(one.error), j;
      }
      done := j + 1;
    }
    r := Ok(());
  }

  lemma FilledStart<E>(was: Contents<E>, targets: seq<nat>, values: seq<seq<E>>)
    requires |targets| == |values| && Below(targets, |was|)
    ensures Filled(was, targets, values, 0) == was
  {
  }

  lemma FilledStep<E>(was: Contents<E>, targets: seq<nat>, values: seq<seq<E>>, n: nat)
    requires n < |targets| == |values| && Below(targets, |was|)
    ensures Filled(was, targets, values, n + 1) == Filled(was, targets, values, n)[targets[n] := Some(values[n])]
  {
  }

  lemma StillMissing<E>(was: Contents<E>, targets: seq<nat>, values: seq<seq<E>>, j: nat)
    requires j < |targets| == |values| && Ascending(targets) && Below(targets, |was|) && was[targets[j]].None?
    ensures Filled(was, targets, values, j)[targets[j]].None?
  {
    FilledAt(was, targets, values, j, targets[j]);
  }

  // ----- restored data as input for the parity stage

  /** Merges the restored data with the surviving data, backwards, so that unread prefix views stay intact. */
  method UseRecoveredData<T>(inputs: array<T>, targets: seq<nat>, recovered: seq<T>, ghost known: seq<nat>, ghost data: seq<T>)
    requires |data| == inputs.Length && Partition(known, targets, inputs.Length) && |known| <= inputs.Length
    requires inputs[..|known|] == Gather(data, known) && recovered == Gather(data, targets)
    modifies inputs
    ensures inputs[..] == data
  {
    hide Partition, Gather;
    PartitionBelow(known, targets, inputs.Length);
    PartitionSize(known, targets, inputs.Length);
    ghost var left := Gather(data, known);
    var existing: nat := inputs.Length - |targets|;
    var next: nat := |targets|;
    var index: nat := inputs.Length;
    assert known[..existing] == known && targets[..next] == targets;
    assert forall i :: 0 <= i < existing ==> inputs[i] == inputs[..|known|][i];
    while index > 0
      invariant 0 <= index <= inputs.Length && 0 <= existing <= |known| && 0 <= next <= |targets|
      invariant existing + next == index && Partition(known[..existing], targets[..next], index)
      invariant forall i :: 0 <= i < existing ==> inputs[i] == left[i]
      invariant forall i :: index <= i < inputs.Length ==> inputs[i] == data[i]
    {
      index := index - 1;
      MergeStep(known, targets, existing, next, index);
      if next != 0 && targets[next - 1] == index {
        next := next - 1;
        inputs[index] := recovered[next];
      } else {
        existing := existing - 1;
        inputs[index] := inputs[existing];
      }
    }
  }

  lemma PartitionBelow(known: seq<nat>, targets: seq<nat>, n: nat)
    requires Partition(known, targets, n)
    ensures Below(known, n) && Below(targets, n)
  {
  }

  /** The largest number belongs to one side of a partition, at its end. */
  lemma MergeStep(known: seq<nat>, targets: seq<nat>, a: nat, b: nat, n: nat)
    requires a <= |known| && b <= |targets| && Partition(known[..a], targets[..b], n + 1)
    ensures b > 0 && targets[b - 1] == n ==> Partition(known[..a], targets[..b - 1], n)
    ensures !(b > 0 && targets[b - 1] == n) ==> a > 0 && known[a - 1] == n && Partition(known[..a - 1], targets[..b], n)
  {
    assert b > 0 ==> targets[..b][..b - 1] == targets[..b - 1];
    assert a > 0 ==> known[..a][..a - 1] == known[..a - 1];
    if n in targets[..b] {
      LastOf(targets[..b], n + 1);
      DropLast(targets[..b], known[..a], n + 1);
    } else {
      LastOf(known[..a], n + 1);
      DropLast(known[..a], targets[..b], n + 1);
      assert b == 0 || targets[..b][b - 1] in targets[..b];
    }
  }

  // ----- collecting the views

  /** The values of the survivors, if they are all present with the planned length. */
  ghost predicate SurvivorsReady<E>(v: Contents<E>, valid: seq<nat>, len: nat)
    requires Below(valid, |v|)
  {
    forall i :: 0 <= i < |valid| ==> v[valid[i]].Some? && |v[valid[i]].value| == len
  }

  ghost function ValuesOf<E>(v: Contents<E>, valid: seq<nat>): (values: seq<seq<E>>)
    requires Below(valid, |v|) && forall i :: 0 <= i < |valid| ==> v[valid[i]].Some?
    ensures |values| == |valid| && forall i {:trigger values[i]} :: 0 <= i < |valid| ==> values[i] == v[valid[i]].value
  {
    seq(|valid|, i requires 0 <= i < |valid| => v[valid[i]].value)
  }

  /** What the first `n` survivors fail on: the first of them that is missing or has another length. */
  ghost function ViewError<E>(v: Contents<E>, valid: seq<nat>, len: nat, n: nat): (e: Option<Error>)
    requires Below(valid, |v|) && n <= |valid|
  {
    if n == 0 then None
    else
      var earlier, shard := ViewError(v, valid, len, n - 1), v[valid[n - 1]];
      if earlier.Some? then earlier
      else if shard.None? then Some(TooFewShardsPresent)
      else if |shard.value| != len then Some(IncorrectShardSize)
      else None
  }

  /** The survivor it blames: all earlier ones are ready, this one is missing or has another length. */
  lemma {:induction false} ViewErrorBlames<E>(v: Contents<E>, valid: seq<nat>, len: nat, n: nat) returns (i: nat)
    requires Below(valid, |v|) && n <= |valid| && ViewError(v, valid, len, n).Some?
    ensures i < n && SurvivorsReady(v, valid[..i], len)
    ensures v[valid[i]].None? || |v[valid[i]].value| != len
    ensures ViewError(v, valid, len, n) == Some(if v[valid[i]].None? then TooFewShardsPresent else IncorrectShardSize)
  {
    if ViewError(v, valid, len, n - 1).Some? {
      i := ViewErrorBlames(v, valid, len, n - 1);
    } else {
      i := n - 1;
      ReadyExactly(v, valid, len, i);
    }
  }

  lemma {:induction false} ViewErrorStays<E>(v: Contents<E>, valid: seq<nat>, len: nat, n: nat, upto: nat)
    requires Below(valid, |v|) && n <= upto <= |valid| && ViewError(v, valid, len, n).Some?
    ensures ViewError(v, valid, len, upto) == ViewError(v, valid, len, n)
  {
    if n < upto {
      ViewErrorStays(v, valid, len, n, upto - 1);
    }
  }

  lemma ViewErrorStep<E>(v: Contents<E>, valid: seq<nat>, len: nat, n: nat)
    requires Below(valid, |v|) && n < |valid| && ViewError(v, valid, len, n).None?
    ensures var shard := v[valid[n]];
      ViewError(v, valid, len, n + 1)
      == if shard.None? then Some(TooFewShardsPresent) else if |shard.value| != len then Some(IncorrectShardSize) else None
  {
  }

  /** The survivors are ready exactly when none of them fails. */
  lemma {:induction false} ReadyExactly<E>(v: Contents<E>, valid: seq<nat>, len: nat, n: nat)
    requires Below(valid, |v|) && n <= |valid|
    ensures ViewError(v, valid, len, n).None? <==> forall i :: 0 <= i < n ==> v[valid[i]].Some? && |v[valid[i]].value| == len
  {
    if n > 0 {
      ReadyExactly(v, valid, len, n - 1);
    }
  }

  /** One pass over the shards sorts them into survivor views and destinations. */
  method CollectViews<E>(shards: seq<Shard<E>>, valid: seq<nat>, len: nat, dataTargets: seq<nat>, parityTargets: seq<nat>)
    returns (r: Result<(), Error>, inputs: seq<seq<E>>, data: seq<nat>, parity: seq<nat>)
    requires Ascending(valid) && Ascending(dataTargets) && Ascending(parityTargets)
    requires Below(valid, |shards|) && Below(dataTargets, |shards|) && Below(parityTargets, |shards|)
    requires forall i :: i in valid ==> i !in dataTargets && i !in parityTargets
    requires forall i :: i in dataTargets ==> i !in parityTargets
    ensures r.Ok? <==> SurvivorsReady(Snapshot(shards), valid, len)
    ensures r.Err? ==> ViewError(Snapshot(shards), valid, len, |valid|) == Some(r.error)
    ensures r.Ok? ==> inputs == ValuesOf(Snapshot(shards), valid) && data == dataTargets && parity == parityTargets
  {
    hide Reached, Ascending, ViewError, ValuesOf;
    inputs, data, parity := [], [], [];
    NoneReached(valid);
    NoneReached(dataTargets);
    NoneReached(parityTargets);
    ReadyExactly(Snapshot(shards), valid, len, 0);
    ReadyExactly(Snapshot(shards), valid, len, |valid|);
    for index := 0 to |shards|
      invariant |inputs| <= |valid| && Reached(valid, index, |inputs|)
      invariant |data| <= |dataTargets| && Reached(dataTargets, index, |data|) && data == dataTargets[..|data|]
      invariant |parity| <= |parityTargets| && Reached(parityTargets, index, |parity|) && parity == parityTargets[..|parity|]
      invariant forall i :: 0 <= i < |inputs| ==> shards[valid[i]].Value() == Some(inputs[i]) && |inputs[i]| == len
      invariant ViewError(Snapshot(shards), valid, len, |inputs|) == None
    {
      ReachedStep(valid, index, |inputs|);
      ReachedStep(dataTargets, index, |data|);
      ReachedStep(parityTargets, index, |parity|);
      if |inputs| < |valid| && valid[|inputs|] == index {
        assert valid[|inputs|] in valid;
        assert Snapshot(shards)[valid[|inputs|]] == shards[index].Value();
        ViewErrorStep(Snapshot(shards), valid, len, |inputs|);
        if !shards[index].present {
          ViewErrorStays(Snapshot(shards), valid, len, |inputs| + 1, |valid|);
          return Err(TooFewShardsPresent), inputs, data, parity;
        }
        if |shards[index].data| != len {
          ViewErrorStays(Snapshot(shards), valid, len, |inputs| + 1, |valid|);
          return Err(IncorrectShardSize), inputs, data, parity;
        }
        inputs := inputs + [shards[index].data];
      } else if |data| < |dataTargets| && dataTargets[|data|] == index {
        assert dataTargets[|data|] in dataTargets;
        data := data + [index];
      } else if |parity| < |parityTargets| && parityTargets[|parity|] == index {
        parity := parity + [index];
      }
    }
    ReachedEnd(valid, |shards|, |inputs|);
    ReachedEnd(dataTargets, |shards|, |data|);
    ReachedEnd(parityTargets, |shards|, |parity|);
    assert inputs == ValuesOf(Snapshot(shards), valid);
    r := Ok(());
  }

  lemma NoneReached(s: seq<nat>)
    ensures Reached(s, 0, 0)
  {
  }

  lemma ReachedEnd(s: seq<nat>, n: nat, next: nat)
    requires Below(s, n) && next <= |s| && Reached(s, n, next)
    ensures next == |s| && s[..next] == s
  {
    assert |s| > 0 ==> s[|s| - 1] < n;
  }

  // ----- what the outputs mean

  /** The whole codeword of some data. */
  ghost function Word<E(!new)>(c: Codec<E>, data: seq<seq<E>>, len: nat): (w: seq<seq<E>>)
    requires c.Valid() && IsMatrix(data, c.dataShards, len)
    ensures IsMatrix(w, c.TotalShards(), len)
    ensures forall i {:trigger w[i]} :: 0 <= i < |w| ==> w[i] == Comb(c.field, c.matrix[i], data, len)
  {
    MatMul(c.field, c.matrix, data, len)
  }

  lemma WordIsCodeword<E(!new)>(c: Codec<E>, data: seq<seq<E>>, len: nat)
    requires c.Valid() && IsMatrix(data, c.dataShards, len)
    ensures |data| == c.dataShards <= |Word(c, data, len)| == c.TotalShards()
    ensures IsCodeword(c, Word(c, data, len), len) && Word(c, data, len)[..c.dataShards] == data
  {
    ProductSplits(c, data, len);
    var w := Word(c, data, len);
    assert w == data + Encoded(c, data, len);
    assert w[..c.dataShards] == data && w[c.dataShards..] == Encoded(c, data, len);
  }

  /** The survivors' values come from exactly this data. */
  ghost predicate Explains<E(!new)>(c: Codec<E>, valid: seq<nat>, data: seq<seq<E>>, inputs: seq<seq<E>>, len: nat)
    requires c.Valid() && |valid| == c.dataShards && Below(valid, c.TotalShards())
  {
    && IsMatrix(data, c.dataShards, len)
    && inputs == MatMul(c.field, Survived(c, valid), data, len)
  }

  /** Every survivor list of a plan with outputs is explained by some data. */
  lemma SolveData<E(!new)>(c: Codec<E>, p: Plan<E>, goal: Goal, inputs: seq<seq<E>>, len: nat) returns (data: seq<seq<E>>)
    requires c.Valid() && p.Planned(c, goal) && p.HasOutputs() && Survivors(c, p.shape.validIndices, p.shape.invalidIndices)
    requires IsMatrix(inputs, c.dataShards, len)
    ensures Explains(c, p.shape.validIndices, data, inputs, len) && IsMatrix(data, c.dataShards, len)
    ensures MissingData(p.shape.invalidIndices, c.dataShards) == [] ==> data == inputs
  {
    var f, k, valid := c.field, c.dataShards, p.shape.validIndices;
    if p.decodeMatrix.Some? {
      var d := p.decodeMatrix.value;
      data := MatMul(f, d, inputs, len);
      MatMulAssoc(f, Survived(c, valid), d, inputs, len);
      MatMulIdentity(f, inputs, len);
    } else {
      data := inputs;
      AllDataSurvives(c, valid, p.shape.invalidIndices);
      assert Survived(c, valid) == Identity(f, k);
      MatMulIdentity(f, inputs, len);
    }
  }

  lemma AllDataSurvives<E(!new)>(c: Codec<E>, valid: seq<nat>, invalid: seq<nat>)
    requires c.Valid() && Survivors(c, valid, invalid) && MissingData(invalid, c.dataShards) == []
    ensures forall i :: 0 <= i < c.dataShards ==> valid[i] == i
  {
    var k := c.dataShards;
    DataPartition(c, valid, invalid);
    var known := valid[..KnownCount(valid, k)];
    forall x ensures x in known <==> x in Range(k) {
      assert x in Range(k) ==> x < k;
      assert 0 <= x < k ==> Range(k)[x] == x;
    }
    AscendingUnique(known, Range(k));
  }

  /** The data rows applied to the survivors give the lost data shards. */
  lemma DataOutputs<E(!new)>(c: Codec<E>, p: Plan<E>, goal: Goal, data: seq<seq<E>>, inputs: seq<seq<E>>, len: nat)
    requires c.Valid() && p.Planned(c, goal) && Survivors(c, p.shape.validIndices, p.shape.invalidIndices)
    requires Explains(c, p.shape.validIndices, data, inputs, len)
    ensures Below(p.DataTargets(), c.dataShards)
    ensures p.DataTargets() != [] ==> p.decodeMatrix.Some? && |p.decodeMatrix.value| == c.dataShards
    ensures IsMatrix(DataRows(p), |p.DataTargets()|, c.dataShards)
    ensures MatMul(c.field, DataRows(p), inputs, len) == Gather(Word(c, data, len), p.DataTargets())
  {
    hide Field.Valid;
    DataRowsRecover(p, c, goal);
    forall i | 0 <= i < |p.DataTargets()|
      ensures Comb(c.field, DataRows(p)[i], inputs, len) == Word(c, data, len)[p.DataTargets()[i]]
    {
      RecoversShard(c, p.shape.validIndices, DataRows(p)[i], p.DataTargets()[i], data, len);
    }
  }

  /** The parity rows give the lost parity shards: composed rows from the survivors, encoding rows
      from the completed data. */
  lemma ParityOutputs<E(!new)>(c: Codec<E>, p: Plan<E>, goal: Goal, data: seq<seq<E>>, inputs: seq<seq<E>>, len: nat)
    requires c.Valid() && p.Planned(c, goal) && Survivors(c, p.shape.validIndices, p.shape.invalidIndices)
    requires if p.directParity then Explains(c, p.shape.validIndices, data, inputs, len)
             else IsMatrix(data, c.dataShards, len) && inputs == data
    ensures Below(p.ParityTargets(), c.TotalShards()) && IsMatrix(ParityRows(p, c.matrix), |p.ParityTargets()|, c.dataShards)
    ensures MatMul(c.field, ParityRows(p, c.matrix), inputs, len) == Gather(Word(c, data, len), p.ParityTargets())
  {
    hide Field.Valid, Filtered, AreInverse, Survivors, PartitionPoint, Recovers, Comb, Word, Ascending;
    SurvivorsShape(c, p.shape.validIndices, p.shape.invalidIndices);
    TargetsBelow(p, c.TotalShards(), c.dataShards, goal);
    var rows := ParityRows(p, c.matrix);
    forall i | 0 <= i < |p.ParityTargets()|
      ensures |rows[i]| == c.dataShards && Comb(c.field, rows[i], inputs, len) == Word(c, data, len)[p.ParityTargets()[i]]
    {
      ParityRowOutput(c, p, goal, data, inputs, len, i);
    }
  }

  lemma ParityRowOutput<E(!new)>(c: Codec<E>, p: Plan<E>, goal: Goal, data: seq<seq<E>>, inputs: seq<seq<E>>, len: nat, i: nat)
    requires c.Valid() && p.Planned(c, goal) && Survivors(c, p.shape.validIndices, p.shape.invalidIndices)
    requires if p.directParity then Explains(c, p.shape.validIndices, data, inputs, len)
             else IsMatrix(data, c.dataShards, len) && inputs == data
    requires Below(p.ParityTargets(), c.TotalShards()) && i < |p.ParityTargets()|
    ensures var row := ParityRows(p, c.matrix)[i];
      |row| == |inputs| == c.dataShards && Comb(c.field, row, inputs, len) == Word(c, data, len)[p.ParityTargets()[i]]
  {
    hide Field.Valid, Filtered, AreInverse, Survivors, PartitionPoint, Comb, Ascending;
    SurvivorsShape(c, p.shape.validIndices, p.shape.invalidIndices);
    if p.directParity {
      RecoversShard(c, p.shape.validIndices, p.parityDecodeRows[i], p.ParityTargets()[i], data, len);
    }
  }

  // ----- the executor

  /** The shards a plan was made for. */
  ghost predicate Matches<E(!new)>(v: Contents<E>, shape: Shape) {
    && (forall i :: 0 <= i < |v| ==> (v[i].None? <==> i in shape.invalidIndices))
    && (forall i :: 0 <= i < |v| && v[i].Some? ==> |v[i].value| == shape.shardLen)
  }

  /** All targets in order: data before parity. */
  ghost function Targets<E(!new)>(p: Plan<E>): seq<nat>
    requires p.dataTargetCount <= |p.TargetIndices()|
  {
    p.DataTargets() + p.ParityTargets()
  }

  /** The inputs of the parity stage: restored data merged with surviving data where needed. */
  method ParityInputs<E(!new)>(c: Codec<E>, p: Plan<E>, ghost goal: Goal, inputs: seq<seq<E>>, recovered: seq<seq<E>>, ghost data: seq<seq<E>>, ghost len: nat)
    returns (merged: seq<seq<E>>)
    requires c.Valid() && p.Planned(c, goal) && Survivors(c, p.shape.validIndices, p.shape.invalidIndices) && p.ParityTargets() != []
    requires Explains(c, p.shape.validIndices, data, inputs, len) && (MissingData(p.shape.invalidIndices, c.dataShards) == [] ==> data == inputs)
    requires Below(p.DataTargets(), c.dataShards) && recovered == Gather(data, p.DataTargets())
    ensures p.directParity ==> merged == inputs
    ensures !p.directParity ==> merged == data
  {
    hide AreInverse, Field.Valid, Recovers, Survivors, Explains;
    if p.directParity {
      return inputs;
    }
    if p.DataTargets() == [] {
      OnlyParityMissing(p, c, goal);
      return inputs;
    }
    AllMissingDataRestored(p, c, goal);
    merged := MergeRecovered(c, p.shape.validIndices, p.shape.invalidIndices, inputs, p.DataTargets(), recovered, data, len);
  }

  method MergeRecovered<E(!new)>(c: Codec<E>, valid: seq<nat>, ghost invalid: seq<nat>, inputs: seq<seq<E>>, targets: seq<nat>, recovered: seq<seq<E>>,
                                 ghost data: seq<seq<E>>, ghost len: nat)
    returns (merged: seq<seq<E>>)
    requires c.Valid() && Survivors(c, valid, invalid) && targets == MissingData(invalid, c.dataShards)
    requires Explains(c, valid, data, inputs, len)
    requires Below(targets, c.dataShards) && recovered == Gather(data, targets)
    ensures merged == data
  {
    DataPartition(c, valid, invalid);
    KnownInputs(c, valid, invalid, data, inputs, len);
    var views := new seq<E>[|inputs|](i requires 0 <= i < |inputs| => inputs[i]);
    assert views[..] == inputs;
    UseRecoveredData(views, targets, recovered, valid[..KnownCount(valid, c.dataShards)], data);
    merged := views[..];
  }

  /** Without direct parity and without data targets, no data was missing. */
  lemma OnlyParityMissing<E(!new)>(p: Plan<E>, c: Codec<E>, goal: Goal)
    requires c.Valid() && p.Planned(c, goal) && p.ParityTargets() != [] && !p.directParity && p.DataTargets() == []
    ensures MissingData(p.shape.invalidIndices, c.dataShards) == []
  {
    hide AreInverse, Field.Valid, Recovers, Survivors, Filtered;
    if !goal.Required? {
      FilteredAll(p.shape.invalidIndices, goal);
    }
  }

  /** Without direct parity, parity is only restored together with all missing data. */
  lemma AllMissingDataRestored<E(!new)>(p: Plan<E>, c: Codec<E>, goal: Goal)
    requires c.Valid() && p.Planned(c, goal) && p.ParityTargets() != [] && !p.directParity && p.DataTargets() != []
    ensures p.DataTargets() == MissingData(p.shape.invalidIndices, c.dataShards)
  {
    hide AreInverse, Field.Valid, Recovers, Survivors, Filtered;
    if goal.Required? {
      var t := p.DataTargets()[0];
      FilteredMember(p.shape.invalidIndices, goal, t);
      assert t in p.TargetIndices();
      PrefixMembers(p.shape.invalidIndices, c.dataShards, t);
    } else {
      FilteredAll(p.shape.invalidIndices, goal);
    }
  }

  /** The survivor views start with the surviving data shards. */
  lemma KnownInputs<E(!new)>(c: Codec<E>, valid: seq<nat>, invalid: seq<nat>, data: seq<seq<E>>, inputs: seq<seq<E>>, len: nat)
    requires c.Valid() && Survivors(c, valid, invalid) && Explains(c, valid, data, inputs, len)
    ensures var a := KnownCount(valid, c.dataShards);
      a <= |inputs| && Below(valid[..a], |data|) && inputs[..a] == Gather(data, valid[..a])
  {
    var a := KnownCount(valid, c.dataShards);
    forall i | 0 <= i < a ensures inputs[i] == data[valid[i]] {
      CombUnit(c.field, data, len, valid[i]);
    }
  }

  /** The values the targets receive. */
  ghost function Lost<E(!new)>(p: Plan<E>, word: seq<seq<E>>): (v: seq<seq<E>>)
    requires p.dataTargetCount <= |p.TargetIndices()| && Below(Targets(p), |word|)
    ensures |v| == |Targets(p)|
  {
    Gather(word, Targets(p))
  }

  lemma TargetFacts<E(!new)>(p: Plan<E>, c: Codec<E>, goal: Goal)
    requires c.Valid() && p.Planned(c, goal)
    ensures c.field.Valid() && c.dataShards > 0 && |c.matrix| == c.TotalShards() && p.dataTargetCount <= |p.TargetIndices()|
    ensures forall i :: 0 <= i < |p.DataTargets()| ==> p.DataTargets()[i] < c.TotalShards()
    ensures Ascending(p.shape.invalidIndices) && Below(p.shape.invalidIndices, c.TotalShards())
    ensures Below(p.DataTargets(), c.TotalShards())
    ensures Ascending(p.DataTargets()) && Ascending(p.ParityTargets()) && Ascending(Targets(p))
    ensures Below(p.DataTargets(), c.dataShards) && Below(p.ParityTargets(), c.TotalShards()) && Below(Targets(p), c.TotalShards())
    ensures forall i :: i in p.DataTargets() ==> i < c.dataShards && i in p.shape.invalidIndices && i !in p.ParityTargets()
    ensures forall i :: i in p.ParityTargets() ==> i in p.shape.invalidIndices
  {
    hide Filtered, Recovers, AreInverse, Survivors, Field.Valid;
    forall i: nat
      ensures i in p.DataTargets() ==> i < c.dataShards && i in p.shape.invalidIndices && i !in p.ParityTargets()
      ensures i in p.ParityTargets() ==> i >= c.dataShards && i in p.shape.invalidIndices
    {
      TargetsAreRequests(p, c, goal, i);
    }
    TargetsAreRequests(p, c, goal, 0);
    TargetsBelow(p, c.TotalShards(), c.dataShards, goal);
    AscendingConcat(p.DataTargets(), p.ParityTargets(), c.dataShards);
  }

  lemma AscendingConcat(a: seq<nat>, b: seq<nat>, k: nat)
    requires Ascending(a) && Ascending(b)
    requires (forall i :: i in a ==> i < k) && (forall i :: i in b ==> i >= k)
    ensures Ascending(a + b) && Below(a, k)
  {
    assert forall i :: 0 <= i < |a| ==> a[i] in a;
    assert forall i :: 0 <= i < |b| ==> b[i] in b;
  }

  /** Executes a plan on the shards it was made for.  The outputs belong to one codeword, the one
      that explains the survivors; a rejecting destination stops after a completed prefix. */
  method ExecutePlan<E(!new)>(c: Codec<E>, shards: seq<Shard<E>>, p: Plan<E>, ghost goal: Goal)
    returns (r: Result<(), Error>, ghost word: seq<seq<E>>, ghost done: nat)
    requires c.Valid() && p.Planned(c, goal) && Distinct(shards) && |shards| == c.TotalShards()
    requires Matches(Snapshot(shards), p.shape)
    modifies shards
    ensures Below(Targets(p), c.TotalShards()) && done <= |Targets(p)|
    ensures !p.HasOutputs() ==> r == Ok(()) && Snapshot(shards) == old(Snapshot(shards))
    ensures p.HasOutputs() ==> IsCodeword(c, word, p.shape.shardLen) && Survivors(c, p.shape.validIndices, p.shape.invalidIndices)
    ensures p.HasOutputs() ==> forall i :: i in p.shape.validIndices ==> old(Snapshot(shards))[i] == Some(word[i])
    ensures p.HasOutputs() ==> Snapshot(shards) == Filled(old(Snapshot(shards)), Targets(p), Lost(p, word), done)
    ensures r.Ok? <==> done == |Targets(p)|
    ensures r.Err? ==> r.error == IncorrectShardSize && !Accepting(shards, p.shape.shardLen)[Targets(p)[done]]
    ensures Accepting(shards, p.shape.shardLen) == old(Accepting(shards, p.shape.shardLen))
  {
    hide *;
    TargetFacts(p, c, goal);
    if !p.HasOutputs() {
      NoTargets(p);
      return Ok(()), [], 0;
    }
    OutputsHaveSurvivors(p, c, goal);
    SurvivorsShape(c, p.shape.validIndices, p.shape.invalidIndices);
    ghost var was := Snapshot(shards);
    ReadyToCollect(c, was, p);
    var collected, inputs, data, parity := CollectViews(shards, p.shape.validIndices, p.shape.shardLen, p.DataTargets(), p.ParityTargets());
    assert collected.Ok?;
    r, word, done := RestoreAll(c, shards, p, goal, inputs, data, parity);
  }

  lemma NoTargets<E(!new)>(p: Plan<E>)
    requires p.dataTargetCount <= |p.TargetIndices()| && !p.HasOutputs()
    ensures Targets(p) == []
  {
  }

  lemma OutputsHaveSurvivors<E(!new)>(p: Plan<E>, c: Codec<E>, goal: Goal)
    requires c.Valid() && p.Planned(c, goal) && p.HasOutputs()
    ensures Survivors(c, p.shape.validIndices, p.shape.invalidIndices)
  {
    hide Filtered, Recovers, AreInverse, Survivors, Field.Valid;
    TargetFacts(p, c, goal);
    if p.DataTargets() != [] {
      assert p.DataTargets()[0] in p.DataTargets();
    } else {
      assert p.ParityTargets()[0] in p.ParityTargets();
    }
  }

  lemma ReadyToCollect<E(!new)>(c: Codec<E>, v: Contents<E>, p: Plan<E>)
    requires Matches(v, p.shape) && |v| == c.TotalShards() && Survivors(c, p.shape.validIndices, p.shape.invalidIndices)
    ensures Below(p.shape.validIndices, |v|)
    ensures forall i :: i in p.shape.validIndices ==> i !in p.shape.invalidIndices
    ensures SurvivorsReady(v, p.shape.validIndices, p.shape.shardLen)
  {
    forall i | i in p.shape.validIndices ensures i !in p.shape.invalidIndices {
      var j :| 0 <= j < |p.shape.validIndices| && p.shape.validIndices[j] == i;
    }
    forall j | 0 <= j < |p.shape.validIndices| ensures v[p.shape.validIndices[j]].Some? {
      assert p.shape.validIndices[j] in p.shape.validIndices;
    }
  }

  /** The data stage, then the parity stage. */
  method RestoreAll<E(!new)>(c: Codec<E>, shards: seq<Shard<E>>, p: Plan<E>, ghost goal: Goal, inputs: seq<seq<E>>, data: seq<nat>, parity: seq<nat>)
    returns (r: Result<(), Error>, ghost word: seq<seq<E>>, ghost done: nat)
    requires c.Valid() && p.Planned(c, goal) && p.HasOutputs() && Survivors(c, p.shape.validIndices, p.shape.invalidIndices)
    requires Distinct(shards) && |shards| == c.TotalShards() && Matches(Snapshot(shards), p.shape)
    requires Below(p.shape.validIndices, |shards|) && SurvivorsReady(Snapshot(shards), p.shape.validIndices, p.shape.shardLen)
    requires inputs == ValuesOf(Snapshot(shards), p.shape.validIndices) && data == p.DataTargets() && parity == p.ParityTargets()
    modifies shards
    ensures Below(Targets(p), c.TotalShards()) && done <= |Targets(p)|
    ensures IsCodeword(c, word, p.shape.shardLen)
    ensures forall i :: i in p.shape.validIndices ==> old(Snapshot(shards))[i] == Some(word[i])
    ensures Snapshot(shards) == Filled(old(Snapshot(shards)), Targets(p), Lost(p, word), done)
    ensures r.Ok? <==> done == |Targets(p)|
    ensures r.Err? ==> r.error == IncorrectShardSize && !Accepting(shards, p.shape.shardLen)[Targets(p)[done]]
    ensures Accepting(shards, p.shape.shardLen) == old(Accepting(shards, p.shape.shardLen))
  {
    hide *;
    var len := p.shape.shardLen;
    ghost var was := Snapshot(shards);
    TargetFacts(p, c, goal);
    SurvivorInputs(c, was, p, inputs);
    ghost var solution := SolveData(c, p, goal, inputs, len);
    word := Word(c, solution, len);
    WordIsCodeword(c, solution, len);
    WordExplains(c, was, p, inputs, solution);
    DataOutputs(c, p, goal, solution, inputs, len);
    ghost var lost := Gather(word, data);
    MissingTargets(was, p, goal, c);
    ghost var d;
    r, d := RestoreTargets(c.field, shards, data, len, DataRows(p), inputs);
    done := d;
    FilledFirst(was, p, word, d);
    TargetCount(p);
    if r.Err? {
      TargetAt(p, d);
      return;
    }
    if |parity| == 0 {
      return;
    }
    ghost var middle := Snapshot(shards);
    ParityStillMissing(was, p, lost, goal, c);
    var recovered := ReadRestored(shards, data, was, lost);
    GatherFront(solution, word, data);
    var merged := ParityInputs(c, p, goal, inputs, recovered, solution, len);
    ParityOutputs(c, p, goal, solution, merged, len);
    r, d := RestoreTargets(c.field, shards, parity, len, ParityRows(p, c.matrix), merged);
    FilledSecond(was, p, word, d);
    done := |data| + d;
    if r.Err? {
      TargetAt(p, done);
    }
  }

  lemma SurvivorInputs<E(!new)>(c: Codec<E>, was: Contents<E>, p: Plan<E>, inputs: seq<seq<E>>)
    requires Survivors(c, p.shape.validIndices, p.shape.invalidIndices) && Below(p.shape.validIndices, |was|)
    requires SurvivorsReady(was, p.shape.validIndices, p.shape.shardLen) && inputs == ValuesOf(was, p.shape.validIndices)
    ensures |inputs| == c.dataShards > 0 && IsMatrix(inputs, c.dataShards, p.shape.shardLen)
    ensures |p.shape.validIndices| == c.dataShards
  {
  }

  lemma WordExplains<E(!new)>(c: Codec<E>, was: Contents<E>, p: Plan<E>, inputs: seq<seq<E>>, data: seq<seq<E>>)
    requires c.Valid() && Survivors(c, p.shape.validIndices, p.shape.invalidIndices) && Below(p.shape.validIndices, |was|)
    requires SurvivorsReady(was, p.shape.validIndices, p.shape.shardLen) && inputs == ValuesOf(was, p.shape.validIndices)
    requires |was| == c.TotalShards() && Explains(c, p.shape.validIndices, data, inputs, p.shape.shardLen)
    ensures IsMatrix(data, c.dataShards, p.shape.shardLen)
    ensures forall i :: i in p.shape.validIndices ==> was[i] == Some(Word(c, data, p.shape.shardLen)[i])
  {
    forall i | i in p.shape.validIndices ensures was[i] == Some(Word(c, data, p.shape.shardLen)[i]) {
      var j :| 0 <= j < |p.shape.validIndices| && p.shape.validIndices[j] == i;
      assert inputs[j] == Comb(c.field, Survived(c, p.shape.validIndices)[j], data, p.shape.shardLen);
    }
  }

  lemma MissingTargets<E(!new)>(was: Contents<E>, p: Plan<E>, goal: Goal, c: Codec<E>)
    requires c.Valid() && p.Planned(c, goal) && Matches(was, p.shape) && |was| == c.TotalShards()
    ensures p.dataTargetCount <= |p.TargetIndices()| && Below(p.DataTargets(), |was|) && Below(p.ParityTargets(), |was|)
    ensures forall j :: 0 <= j < |p.DataTargets()| ==> was[p.DataTargets()[j]].None?
    ensures forall j :: 0 <= j < |p.ParityTargets()| ==> was[p.ParityTargets()[j]].None?
  {
    hide Filtered, Recovers, AreInverse, Survivors, Field.Valid;
    TargetFacts(p, c, goal);
    forall j | 0 <= j < |p.DataTargets()| ensures was[p.DataTargets()[j]].None? {
      assert p.DataTargets()[j] in p.DataTargets();
    }
    forall j | 0 <= j < |p.ParityTargets()| ensures was[p.ParityTargets()[j]].None? {
      assert p.ParityTargets()[j] in p.ParityTargets();
    }
  }

  lemma ParityStillMissing<E(!new)>(was: Contents<E>, p: Plan<E>, lost: seq<seq<E>>, goal: Goal, c: Codec<E>)
    requires c.Valid() && p.Planned(c, goal) && Matches(was, p.shape) && |was| == c.TotalShards()
    requires |lost| == |p.DataTargets()| && Below(p.DataTargets(), |was|) && Below(p.ParityTargets(), |was|)
    ensures forall j :: 0 <= j < |p.ParityTargets()| ==> Filled(was, p.DataTargets(), lost, |lost|)[p.ParityTargets()[j]].None?
  {
    hide Filtered, Recovers, AreInverse, Survivors, Field.Valid;
    TargetFacts(p, c, goal);
    MissingTargets(was, p, goal, c);
    forall j | 0 <= j < |p.ParityTargets()| ensures Filled(was, p.DataTargets(), lost, |lost|)[p.ParityTargets()[j]].None? {
      var t := p.ParityTargets()[j];
      assert t in p.ParityTargets();
      forall i | 0 <= i < |lost| ensures p.DataTargets()[i] != t {
        assert p.DataTargets()[i] in p.DataTargets();
      }
      FilledAt(was, p.DataTargets(), lost, |lost|, t);
    }
  }

  lemma TargetCount<E(!new)>(p: Plan<E>)
    requires p.dataTargetCount <= |p.TargetIndices()|
    ensures |Targets(p)| == |p.DataTargets()| + |p.ParityTargets()|
  {
  }

  lemma TargetAt<E(!new)>(p: Plan<E>, d: nat)
    requires p.dataTargetCount <= |p.TargetIndices()| && d < |Targets(p)|
    ensures Targets(p)[d] == if d < |p.DataTargets()| then p.DataTargets()[d] else p.ParityTargets()[d - |p.DataTargets()|]
  {
  }

  /** Filling the front of two concatenated target lists. */
  lemma {:induction false} FilledFront<E>(was: Contents<E>, a: seq<nat>, b: seq<nat>, v: seq<seq<E>>, w: seq<seq<E>>, n: nat)
    requires |a| == |v| && |b| == |w| && Below(a, |was|) && Below(a + b, |was|) && n <= |a|
    ensures Filled(was, a + b, v + w, n) == Filled(was, a, v, n)
  {
    if n > 0 {
      FilledFront(was, a, b, v, w, n - 1);
    }
  }

  lemma {:induction false} FilledBack<E>(was: Contents<E>, a: seq<nat>, b: seq<nat>, v: seq<seq<E>>, w: seq<seq<E>>, n: nat)
    requires |a| == |v| && |b| == |w| && Below(a, |was|) && Below(b, |was|) && Below(a + b, |was|) && n <= |b|
    ensures Filled(was, a + b, v + w, |a| + n) == Filled(Filled(was, a, v, |a|), b, w, n)
  {
    if n == 0 {
      FilledFront(was, a, b, v, w, |a|);
    } else {
      FilledBack(was, a, b, v, w, n - 1);
    }
  }

  lemma LostParts<E(!new)>(p: Plan<E>, word: seq<seq<E>>)
    requires p.dataTargetCount <= |p.TargetIndices()|
    requires Below(p.DataTargets(), |word|) && Below(p.ParityTargets(), |word|) && Below(Targets(p), |word|)
    ensures Lost(p, word) == Gather(word, p.DataTargets()) + Gather(word, p.ParityTargets())
  {
  }

  lemma FilledFirst<E(!new)>(was: Contents<E>, p: Plan<E>, word: seq<seq<E>>, d: nat)
    requires p.dataTargetCount <= |p.TargetIndices()| && |word| == |was| && d <= |p.DataTargets()|
    requires Below(p.DataTargets(), |was|) && Below(p.ParityTargets(), |was|) && Below(Targets(p), |was|)
    ensures Filled(was, p.DataTargets(), Gather(word, p.DataTargets()), d) == Filled(was, Targets(p), Lost(p, word), d)
  {
    LostParts(p, word);
    FilledFront(was, p.DataTargets(), p.ParityTargets(), Gather(word, p.DataTargets()), Gather(word, p.ParityTargets()), d);
  }

  lemma FilledSecond<E(!new)>(was: Contents<E>, p: Plan<E>, word: seq<seq<E>>, d: nat)
    requires p.dataTargetCount <= |p.TargetIndices()| && |word| == |was| && d <= |p.ParityTargets()|
    requires Below(p.DataTargets(), |was|) && Below(p.ParityTargets(), |was|) && Below(Targets(p), |was|)
    ensures Filled(Filled(was, p.DataTargets(), Gather(word, p.DataTargets()), |p.DataTargets()|), p.ParityTargets(), Gather(word, p.ParityTargets()), d)
         == Filled(was, Targets(p), Lost(p, word), |p.DataTargets()| + d)
  {
    LostParts(p, word);
    FilledBack(was, p.DataTargets(), p.ParityTargets(), Gather(word, p.DataTargets()), Gather(word, p.ParityTargets()), d);
  }

  lemma GatherFront<T>(front: seq<T>, all: seq<T>, idx: seq<nat>)
    requires |front| <= |all| && all[..|front|] == front && Below(idx, |front|)
    ensures Gather(all, idx) == Gather(front, idx)
  {
    forall i | 0 <= i < |idx| ensures all[idx[i]] == front[idx[i]] {
      assert all[idx[i]] == all[..|front|][idx[i]];
    }
  }

  /** Reads the completed data outputs again. */
  method ReadRestored<E(!new)>(shards: seq<Shard<E>>, targets: seq<nat>, ghost was: Contents<E>, ghost values: seq<seq<E>>) returns (recovered: seq<seq<E>>)
    requires |was| == |shards| && |targets| == |values| && Ascending(targets) && Below(targets, |was|)
    requires Snapshot(shards) == Filled(was, targets, values, |targets|)
    ensures recovered == values
  {
    recovered := [];
    for j := 0 to |targets|
      invariant |recovered| == j && forall i :: 0 <= i < j ==> recovered[i] == values[i]
    {
      FilledAt(was, targets, values, |targets|, targets[j]);
      assert Snapshot(shards)[targets[j]] == shards[targets[j]].Value();
      recovered := recovered + [shards[targets[j]].data];
    }
  }

  // ----- the public operations

  /** Every wanted missing shard holds its part of the codeword and nothing else changed; an
      incomplete recovery may leave wanted shards missing, but never with other contents. */
  ghost predicate RecoveredFrom<E(!new)>(was: Contents<E>, now: Contents<E>, word: seq<seq<E>>, goal: Goal, k: nat, complete: bool) {
    && |was| == |now| == |word|
    && forall i {:trigger now[i]} :: 0 <= i < |was| ==>
         if was[i].None? && (match goal case All => true case Data => i < k case Required(flags) => i < |flags| && flags[i])
         then now[i] == Some(word[i]) || (!complete && now[i] == was[i])
         else now[i] == was[i]
  }

  /** The shards present agree with a codeword. */
  ghost predicate Agrees<E(!new)>(v: Contents<E>, word: seq<seq<E>>) {
    |v| == |word| && forall i :: 0 <= i < |v| && v[i].Some? ==> v[i].value == word[i]
  }

  /** A missing shard is asked for. */
  ghost predicate SomethingWanted<E(!new)>(was: Contents<E>, goal: Goal, k: nat) {
    exists i :: 0 <= i < |was| && was[i].None? && Wanted(goal, k, i)
  }

  /** What restored the shards, if anything had to be: some codeword through the chosen survivors.
      This holds whether or not the remaining shards belong to the same codeword. */
  ghost predicate Restored<E(!new)>(c: Codec<E>, was: Contents<E>, now: Contents<E>, valid: seq<nat>, len: nat, goal: Goal, complete: bool)
    requires c.Valid()
  {
    exists word ::
      && IsCodeword(c, word, len)
      && RecoveredFrom(was, now, word, goal, c.dataShards, complete)
      && (SomethingWanted(was, goal, c.dataShards) ==> forall i :: i in valid ==> i < |was| && i < |word| && was[i] == Some(word[i]))
  }

  lemma WantedTargets<E(!new)>(c: Codec<E>, was: Contents<E>, p: Plan<E>, goal: Goal, i: nat)
    requires c.Valid() && p.Planned(c, goal) && Matches(was, p.shape) && i < |was| == c.TotalShards()
    ensures i in Targets(p) <==> was[i].None? && Wanted(goal, c.dataShards, i)
  {
    hide Filtered, Recovers, AreInverse, Survivors, Field.Valid;
    TargetsAreRequests(p, c, goal, i);
  }

  lemma FilledMeaningAt<E>(was: Contents<E>, t: seq<nat>, word: seq<seq<E>>, done: nat, i: nat)
    requires Ascending(t) && Below(t, |was|) && |was| == |word| && done <= |t| && i < |was|
    ensures var now := Filled(was, t, Gather(word, t), done);
      if i in t then now[i] == Some(word[i]) || (done < |t| && now[i] == was[i]) else now[i] == was[i]
  {
    FilledAt(was, t, Gather(word, t), done, i);
    if i in t {
      var j :| 0 <= j < |t| && t[j] == i;
      AscendingInjective(t, j, done, i);
    }
  }

  lemma FilledMeaning<E(!new)>(c: Codec<E>, was: Contents<E>, p: Plan<E>, goal: Goal, word: seq<seq<E>>, done: nat)
    requires c.Valid() && p.Planned(c, goal) && Matches(was, p.shape) && |was| == |word| == c.TotalShards()
    requires Below(Targets(p), |was|) && done <= |Targets(p)|
    ensures RecoveredFrom(was, Filled(was, Targets(p), Lost(p, word), done), word, goal, c.dataShards, done == |Targets(p)|)
  {
    TargetFacts(p, c, goal);
    var now, t := Filled(was, Targets(p), Lost(p, word), done), Targets(p);
    hide Plan.Planned, Filled, Wanted, Matches, Targets, Ascending, Below;
    forall i | 0 <= i < |was|
      ensures if was[i].None? && Wanted(goal, c.dataShards, i) then now[i] == Some(word[i]) || (done < |t| && now[i] == was[i])
              else now[i] == was[i]
    {
      WantedTargets(c, was, p, goal, i);
      FilledMeaningAt(was, t, word, done, i);
    }
  }

  lemma AscendingInjective(t: seq<nat>, j: nat, done: nat, i: nat)
    requires Ascending(t) && j < |t| && t[j] == i && done <= |t|
    ensures j >= done ==> forall l :: 0 <= l < done ==> t[l] != i
  {
  }

  /** Codewords that agree on invertible survivors are equal. */
  lemma SurvivorsDetermineWord<E(!new)>(c: Codec<E>, valid: seq<nat>, v: seq<seq<E>>, w: seq<seq<E>>, len: nat)
    requires c.Valid() && |valid| == c.dataShards && Below(valid, c.TotalShards())
    requires TrivialKernel(c.field, Survived(c, valid), c.dataShards)
    requires IsCodeword(c, v, len) && IsCodeword(c, w, len) && forall i :: i in valid ==> v[i] == w[i]
    ensures v == w
  {
    var f, k, s := c.field, c.dataShards, Survived(c, valid);
    var d, e := v[..k], w[..k];
    CodewordIsProduct(c, v, len);
    CodewordIsProduct(c, w, len);
    forall i | 0 <= i < k ensures Comb(f, s[i], d, len) == Comb(f, s[i], e, len) {
      assert valid[i] in valid;
      assert MatMul(f, c.matrix, d, len)[valid[i]] == MatMul(f, c.matrix, e, len)[valid[i]];
    }
    KernelDetermines(f, s, d, e, k, len);
  }

  /** A plan with outputs always has invertible survivors. */
  lemma PlannedInvertible<E(!new)>(c: Codec<E>, p: Plan<E>, goal: Goal)
    requires c.Valid() && p.Planned(c, goal) && p.HasOutputs() && Survivors(c, p.shape.validIndices, p.shape.invalidIndices)
    ensures TrivialKernel(c.field, Survived(c, p.shape.validIndices), c.dataShards)
  {
    var f, k, s := c.field, c.dataShards, Survived(c, p.shape.validIndices);
    if p.decodeMatrix.Some? {
      InverseTrivialKernel(f, s, p.decodeMatrix.value, k);
    } else {
      AllDataSurvives(c, p.shape.validIndices, p.shape.invalidIndices);
      assert s == Identity(f, k);
      forall z: seq<E> | z in Kernel(f, s, k) ensures IsZero(f, z) {
        forall i | 0 <= i < k ensures z[i] == f.zero {
          DotUnit(f, z, i);
          assert Dot(f, s[i], z) == f.zero;
        }
      }
    }
  }

  /** Executes a plan and says what the shards then mean: the wanted ones belong to the only codeword
      that agrees with the shards that were present. */
  method RunPlan<E(!new)>(c: Codec<E>, shards: seq<Shard<E>>, p: Plan<E>, ghost goal: Goal, ghost original: seq<seq<E>>)
    returns (r: Result<(), Error>)
    requires c.Valid() && p.Planned(c, goal) && Distinct(shards) && |shards| == c.TotalShards()
    requires Matches(Snapshot(shards), p.shape)
    modifies shards
    ensures IsCodeword(c, original, p.shape.shardLen) && Agrees(old(Snapshot(shards)), original) ==>
      RecoveredFrom(old(Snapshot(shards)), Snapshot(shards), original, goal, c.dataShards, r.Ok?)
    ensures Restored(c, old(Snapshot(shards)), Snapshot(shards), p.shape.validIndices, p.shape.shardLen, goal, r.Ok?)
    ensures !p.HasOutputs() ==> r == Ok(()) && Snapshot(shards) == old(Snapshot(shards))
    ensures r.Err? ==> r.error == IncorrectShardSize
    ensures r.Err? ==> Rejected(old(Snapshot(shards)), old(Accepting(shards, p.shape.shardLen)), goal, c.dataShards)
  {
    hide *;
    ghost var was := Snapshot(shards);
    TargetFacts(p, c, goal);
    ghost var word, done;
    r, word, done := ExecutePlan(c, shards, p, goal);
    if p.HasOutputs() {
      CodewordSize(c, word, p.shape.shardLen);
      FilledMeaning(c, was, p, goal, word, done);
      UniqueWord(c, was, p, goal, word, original);
      OutputsInRange(p, c, goal);
      RestoredBy(c, was, Snapshot(shards), p.shape.validIndices, p.shape.shardLen, goal, word, r.Ok?);
    } else {
      NothingWanted(c, was, p, goal, original);
      NothingRestored(c, was, p.shape.validIndices, p.shape.shardLen, goal);
    }
    if r.Err? {
      RejectedTarget(c, was, p, goal, Accepting(shards, p.shape.shardLen), done);
    }
  }

  lemma OutputsInRange<E(!new)>(p: Plan<E>, c: Codec<E>, goal: Goal)
    requires c.Valid() && p.Planned(c, goal) && p.HasOutputs()
    ensures Below(p.shape.validIndices, c.TotalShards())
  {
    hide Filtered, Recovers, AreInverse;
    OutputsHaveSurvivors(p, c, goal);
  }

  lemma RestoredBy<E(!new)>(c: Codec<E>, was: Contents<E>, now: Contents<E>, valid: seq<nat>, len: nat, goal: Goal, word: seq<seq<E>>, complete: bool)
    requires c.Valid() && IsCodeword(c, word, len) && RecoveredFrom(was, now, word, goal, c.dataShards, complete)
    requires |was| == |word| && Below(valid, |was|) && forall i :: i in valid ==> was[i] == Some(word[i])
    ensures Restored(c, was, now, valid, len, goal, complete)
  {
    hide IsCodeword, RecoveredFrom;
  }

  /** With nothing to restore any codeword will do. */
  lemma NothingRestored<E(!new)>(c: Codec<E>, was: Contents<E>, valid: seq<nat>, len: nat, goal: Goal)
    requires c.Valid() && |was| == c.TotalShards() && !SomethingWanted(was, goal, c.dataShards)
    ensures Restored(c, was, was, valid, len, goal, true)
  {
    var data := seq(c.dataShards, _ => Zeros(c.field, len));
    WordIsCodeword(c, data, len);
    var word := Word(c, data, len);
    hide IsCodeword, Word, Field.Valid;
    assert RecoveredFrom(was, was, word, goal, c.dataShards, true);
  }

  /** Some wanted missing shard cannot be initialized. */
  ghost predicate Rejected<E(!new)>(was: Contents<E>, accepting: seq<bool>, goal: Goal, k: nat)
    requires |was| == |accepting|
  {
    exists i :: 0 <= i < |was| && was[i].None? && Wanted(goal, k, i) && !accepting[i]
  }

  lemma CodewordSize<E(!new)>(c: Codec<E>, w: seq<seq<E>>, len: nat)
    requires c.Valid() && IsCodeword(c, w, len)
    ensures |w| == c.TotalShards()
  {
  }

  lemma RejectedTarget<E(!new)>(c: Codec<E>, was: Contents<E>, p: Plan<E>, goal: Goal, accepting: seq<bool>, d: nat)
    requires c.Valid() && p.Planned(c, goal) && Matches(was, p.shape) && |was| == c.TotalShards() == |accepting|
    requires d < |Targets(p)| && Below(Targets(p), |was|) && !accepting[Targets(p)[d]]
    ensures Rejected(was, accepting, goal, c.dataShards)
  {
    hide Filtered, Recovers, AreInverse, Survivors, Field.Valid;
    assert Targets(p)[d] in Targets(p);
    WantedTargets(c, was, p, goal, Targets(p)[d]);
  }

  lemma UniqueWord<E(!new)>(c: Codec<E>, was: Contents<E>, p: Plan<E>, goal: Goal, word: seq<seq<E>>, original: seq<seq<E>>)
    requires c.Valid() && p.Planned(c, goal) && p.HasOutputs() && Survivors(c, p.shape.validIndices, p.shape.invalidIndices)
    requires IsCodeword(c, word, p.shape.shardLen) && |was| == c.TotalShards()
    requires forall i :: i in p.shape.validIndices ==> was[i] == Some(word[i])
    ensures IsCodeword(c, original, p.shape.shardLen) && Agrees(was, original) ==> original == word
  {
    if IsCodeword(c, original, p.shape.shardLen) && Agrees(was, original) {
      hide Filtered, Recovers, AreInverse, TrivialKernel, Field.Valid;
      PlannedInvertible(c, p, goal);
      forall i | i in p.shape.validIndices ensures original[i] == word[i] {
        assert was[i] == Some(word[i]);
      }
      SurvivorsDetermineWord(c, p.shape.validIndices, original, word, p.shape.shardLen);
    }
  }

  lemma NothingWanted<E(!new)>(c: Codec<E>, was: Contents<E>, p: Plan<E>, goal: Goal, original: seq<seq<E>>)
    requires c.Valid() && p.Planned(c, goal) && !p.HasOutputs() && Matches(was, p.shape) && |was| == c.TotalShards()
    ensures !SomethingWanted(was, goal, c.dataShards)
    ensures Agrees(was, original) ==> RecoveredFrom(was, was, original, goal, c.dataShards, true)
  {
    hide Filtered, Recovers, AreInverse, Survivors, Field.Valid;
    NoTargets(p);
    forall i | 0 <= i < |was| ensures !(was[i].None? && Wanted(goal, c.dataShards, i)) {
      WantedTargets(c, was, p, goal, i);
    }
  }

  /** The errors that precede any inversion, in the order of the checks. */
  ghost function PlanError<E(!new)>(c: Codec<E>, lengths: seq<ShardLength>, goal: Goal): Option<Error> {
    var count := CountError(c.TotalShards(), |lengths|);
    if !FlagsFit(goal, c.dataShards, c.TotalShards()) then Some(InvalidShardFlags)
    else if count.Some? then count
    else
      var shape := PreparedShape(c.dataShards, lengths);
      if shape.Err? then Some(shape.error) else None
  }

  /** Some data is missing, something is wanted, and the chosen survivors are singular. */
  ghost predicate Unsolvable<E(!new)>(c: Codec<E>, lengths: seq<ShardLength>, goal: Goal)
    requires c.Valid() && PlanError(c, lengths, goal).None?
  {
    && Missing(lengths, |lengths|) != []
    && var shape := ShapeOf(c.dataShards, lengths).value;
       ShapeSurvivors(c, lengths);
       NeedsInverse(shape, c.dataShards, goal) && !TrivialKernel(c.field, Survived(c, shape.validIndices), c.dataShards)
  }

  /** The length every present shard has, once the scan has accepted them. */
  ghost function CommonLength(lengths: seq<ShardLength>): nat {
    var scan := Scan(lengths, |lengths|);
    if scan.Ok? then scan.value.shardLen else 0
  }

  /** The survivors a recovery reads: the first `k` present shards. */
  ghost function Chosen<E(!new)>(c: Codec<E>, lengths: seq<ShardLength>): seq<nat> {
    FirstOf(Present(lengths, |lengths|), c.dataShards)
  }

  /** The first error of a reconstruction that has not touched any shard yet. */
  ghost function FirstError<E(!new)>(c: Codec<E>, lengths: seq<ShardLength>, goal: Goal): Option<Error>
    requires c.Valid()
  {
    var planning := PlanError(c, lengths, goal);
    if planning.Some? then planning else if Unsolvable(c, lengths, goal) then Some(InvalidMatrix) else None
  }

  /** Validates a shard list and prepares its plan; nothing to plan when every shard is present. */
  method PlanFor<E(==, !new)>(c: Codec<E>, lengths: seq<ShardLength>, goal: Goal, cache: Option<InversionCache<Inverse<E>>>, byteRows: bool, matrixBytes: nat)
    returns (r: Result<Option<Plan<E>>, Error>)
    requires c.Valid()
    requires cache.Some? ==> cache.value.Valid() && Sound(c, cache.value.entries)
    modifies if cache.Some? then {cache.value} else {}
    ensures cache.Some? ==> cache.value.Valid() && Sound(c, cache.value.entries)
    ensures r.Err? <==> FirstError(c, lengths, goal).Some?
    ensures r.Err? ==> FirstError(c, lengths, goal) == Some(r.error)
    ensures r.Ok? ==> |lengths| == c.TotalShards()
    ensures r.Ok? && r.value.None? ==> Missing(lengths, |lengths|) == []
    ensures r.Ok? && r.value.Some? ==>
      ShapeOf(c.dataShards, lengths) == Ok(r.value.value.shape) && r.value.value.Planned(c, goal)
  {
    hide AreInverse, TrivialKernel, Field.Valid, Sound, Survivors, Present, Missing, Scan, Filtered;
    if goal.Required? && |goal.flags| != c.dataShards && |goal.flags| != c.TotalShards() {
      return Err(InvalidShardFlags);
    }
    var shape := PrepareShape(c, lengths);
    if shape.Err? {
      return Err(shape.error);
    }
    if shape.value.None? {
      return Ok(None);
    }
    ShapeSurvivors(c, lengths);
    SurvivorsShape(c, shape.value.value.validIndices, shape.value.value.invalidIndices);
    ErasuresInRange(c, lengths);
    var plan := PreparePlan(c, shape.value.value, goal, cache, byteRows, matrixBytes);
    r := if plan.Ok? then Ok(Some(plan.value)) else Err(plan.error);
  }

  lemma ErasuresInRange<E(!new)>(c: Codec<E>, lengths: seq<ShardLength>)
    requires |lengths| == c.TotalShards() && ShapeOf(c.dataShards, lengths).Ok?
    ensures Ascending(ShapeOf(c.dataShards, lengths).value.invalidIndices)
    ensures Below(ShapeOf(c.dataShards, lengths).value.invalidIndices, c.TotalShards())
  {
  }

  /** Counts, then reads the lengths once: up to the first erasure, then the rest. */
  method PrepareShape<E(!new)>(c: Codec<E>, lengths: seq<ShardLength>) returns (r: Result<Option<Shape>, Error>)
    ensures CountError(c.TotalShards(), |lengths|).Some? ==> r == Err(CountError(c.TotalShards(), |lengths|).value)
    ensures CountError(c.TotalShards(), |lengths|).None? ==>
      && (r.Err? <==> PreparedShape(c.dataShards, lengths).Err?)
      && (r.Err? ==> PreparedShape(c.dataShards, lengths) == Err(r.error))
      && (r.Ok? ==> (r.value.None? <==> Missing(lengths, |lengths|) == []))
      && (r.Ok? && r.value.Some? ==> ShapeOf(c.dataShards, lengths) == Ok(r.value.value))
  {
    var count := CountError(c.TotalShards(), |lengths|);
    if count.Some? {
      return Err(count.value);
    }
    var reader := new LengthReader(lengths);
    var state := new ClassicShardLengths();
    assert Scan(lengths, 0) == Ok(ScanState(0, 0));
    var prefix := state.ScanPresentPrefix(reader);
    if prefix.Err? {
      ScanStops(lengths, reader.next, |lengths|);
      return Err(prefix.error);
    }
    if prefix.value.None? {
      return Ok(None);
    }
    StillMissingLater(lengths, reader.next, prefix.value.value);
    var shape := FillShapeFromSuffix(c.dataShards, reader, state, prefix.value.value);
    r := if shape.Ok? then Ok(Some(shape.value)) else Err(shape.error);
  }

  lemma StillMissingLater(lengths: seq<ShardLength>, n: nat, i: nat)
    requires n <= |lengths| && Missing(lengths, n) == [i]
    ensures Missing(lengths, |lengths|) != []
  {
    ListMember(lengths, n, i);
    ListMember(lengths, |lengths|, i);
  }

  /** Reconstruction for any goal: plan first, then restore. */
  method Reconstruct<E(==, !new)>(c: Codec<E>, shards: seq<Shard<E>>, goal: Goal, cache: Option<InversionCache<Inverse<E>>>,
                                  byteRows: bool, matrixBytes: nat, ghost original: seq<seq<E>>, ghost len: nat)
    returns (r: Result<(), Error>)
    requires c.Valid() && Distinct(shards)
    requires cache.Some? ==> cache.value.Valid() && Sound(c, cache.value.entries)
    modifies shards, if cache.Some? then {cache.value} else {}
    ensures cache.Some? ==> cache.value.Valid() && Sound(c, cache.value.entries)
    ensures Reconstructed(c, old(Snapshot(shards)), Snapshot(shards), old(Accepting(shards, CommonLength(LengthsOf(Snapshot(shards))))),
                          goal, original, len, r)
  {
    hide *;
    ghost var was := Snapshot(shards);
    var lengths := ReadLengths(shards);
    var plan := PlanFor(c, lengths, goal, cache, byteRows, matrixBytes);
    assert Snapshot(shards) == was;
    if plan.Err? {
      StoppedEarly(c, was, Accepting(shards, CommonLength(lengths)), goal, original, len, plan.error);
      return Err(plan.error);
    }
    if plan.value.None? {
      AllPresent(c, was, Accepting(shards, CommonLength(lengths)), goal, original, len);
      return Ok(());
    }
    var p := plan.value.value;
    ShapeMatches(c, was, p.shape);
    ghost var accepting := Accepting(shards, p.shape.shardLen);
    SameLength(c, was, p.shape, original, len);
    r := RunPlan(c, shards, p, goal, original);
    PlanRun(c, was, Snapshot(shards), accepting, goal, original, len, p.shape.shardLen, r);
  }

  /** What a reconstruction returns and leaves behind.  Errors of the planning stage change nothing.
      Afterwards the wanted shards hold a codeword through the chosen survivors, and if all present
      shards agree with one codeword, that one; everything else is as before.  Only a destination that
      rejects its buffer can stop it, and it stops between complete outputs. */
  ghost predicate Reconstructed<E(!new)>(c: Codec<E>, was: Contents<E>, now: Contents<E>, accepting: seq<bool>, goal: Goal,
                                         original: seq<seq<E>>, len: nat, r: Result<(), Error>)
    requires c.Valid() && |accepting| == |was|
  {
    var first := FirstError(c, LengthsOf(was), goal);
    if first.Some? then r == Err(first.value) && now == was
    else
      && Restored(c, was, now, Chosen(c, LengthsOf(was)), CommonLength(LengthsOf(was)), goal, r.Ok?)
      && (IsCodeword(c, original, len) && Agrees(was, original) ==> RecoveredFrom(was, now, original, goal, c.dataShards, r.Ok?))
      && (r.Err? ==> r.error == IncorrectShardSize && Rejected(was, accepting, goal, c.dataShards))
  }

  lemma StoppedEarly<E(!new)>(c: Codec<E>, was: Contents<E>, accepting: seq<bool>, goal: Goal, original: seq<seq<E>>, len: nat, e: Error)
    requires c.Valid() && |accepting| == |was| && FirstError(c, LengthsOf(was), goal) == Some(e)
    ensures Reconstructed(c, was, was, accepting, goal, original, len, Err(e))
  {
    hide FirstError;
  }

  lemma PlanRun<E(!new)>(c: Codec<E>, was: Contents<E>, now: Contents<E>, accepting: seq<bool>, goal: Goal,
                         original: seq<seq<E>>, len: nat, shardLen: nat, r: Result<(), Error>)
    requires c.Valid() && |accepting| == |was| && FirstError(c, LengthsOf(was), goal).None?
    requires IsCodeword(c, original, len) && Agrees(was, original) ==> len == shardLen
    requires IsCodeword(c, original, shardLen) && Agrees(was, original) ==> RecoveredFrom(was, now, original, goal, c.dataShards, r.Ok?)
    requires r.Err? ==> r.error == IncorrectShardSize && Rejected(was, accepting, goal, c.dataShards)
    requires Restored(c, was, now, Chosen(c, LengthsOf(was)), CommonLength(LengthsOf(was)), goal, r.Ok?)
    ensures Reconstructed(c, was, now, accepting, goal, original, len, r)
  {
    hide FirstError, IsCodeword, Agrees, RecoveredFrom, Rejected, Restored, Chosen, CommonLength;
  }

  /** With every shard present there is nothing to recover. */
  lemma AllPresent<E(!new)>(c: Codec<E>, was: Contents<E>, accepting: seq<bool>, goal: Goal, original: seq<seq<E>>, len: nat)
    requires c.Valid() && |accepting| == |was| && FirstError(c, LengthsOf(was), goal).None? && Missing(LengthsOf(was), |was|) == []
    ensures Reconstructed(c, was, was, accepting, goal, original, len, Ok(()))
  {
    hide *;
    EveryShardPresent(was);
    AlreadyRecovered(was, original, goal, c.dataShards);
    ErrorFreeSize(c, was, goal);
    NothingRestored(c, was, Chosen(c, LengthsOf(was)), CommonLength(LengthsOf(was)), goal);
    PlanRun(c, was, was, accepting, goal, original, len, len, Ok(()));
  }

  lemma AlreadyRecovered<E(!new)>(was: Contents<E>, original: seq<seq<E>>, goal: Goal, k: nat)
    requires forall i :: 0 <= i < |was| ==> was[i].Some?
    ensures !SomethingWanted(was, goal, k)
    ensures Agrees(was, original) ==> RecoveredFrom(was, was, original, goal, k, true)
  {
  }

  lemma ErrorFreeSize<E(!new)>(c: Codec<E>, was: Contents<E>, goal: Goal)
    requires c.Valid() && FirstError(c, LengthsOf(was), goal).None?
    ensures |was| == c.TotalShards()
  {
    hide Unsolvable, PreparedShape;
  }

  lemma EveryShardPresent<E(!new)>(was: Contents<E>)
    requires Missing(LengthsOf(was), |was|) == []
    ensures forall i :: 0 <= i < |was| ==> was[i].Some?
  {
    hide Missing, Present;
    var lengths := LengthsOf(was);
    forall i | 0 <= i < |was| ensures was[i].Some? {
      ListMember(lengths, |was|, i);
      assert lengths[i].Some? <==> was[i].Some?;
    }
  }

  lemma ShapeMatches<E(!new)>(c: Codec<E>, was: Contents<E>, shape: Shape)
    requires ShapeOf(c.dataShards, LengthsOf(was)) == Ok(shape)
    ensures Matches(was, shape) && shape.shardLen == CommonLength(LengthsOf(was)) && shape.validIndices == Chosen(c, LengthsOf(was))
  {
    var lengths := LengthsOf(was);
    ListMembers(lengths, |lengths|);
    ScanKnows(lengths, |lengths|);
    hide Present, Missing, Scan;
    forall i | 0 <= i < |was| ensures (was[i].None? <==> i in shape.invalidIndices) && (was[i].Some? ==> |was[i].value| == shape.shardLen) {
      assert lengths[i].Some? <==> was[i].Some?;
    }
  }

  /** A codeword that agrees with the present shards has their length. */
  lemma SameLength<E(!new)>(c: Codec<E>, was: Contents<E>, shape: Shape, original: seq<seq<E>>, len: nat)
    requires c.Valid() && ShapeOf(c.dataShards, LengthsOf(was)) == Ok(shape) && |was| == c.TotalShards()
    ensures IsCodeword(c, original, len) && Agrees(was, original) ==> len == shape.shardLen
  {
    var lengths := LengthsOf(was);
    ListMembers(lengths, |lengths|);
    ScanKnows(lengths, |lengths|);
    var i := Present(lengths, |lengths|)[0];
    assert i in Present(lengths, |lengths|);
    assert lengths[i].value == shape.shardLen;
  }
}
