/** What the recovery operations guarantee to their callers. */
module RecoveryGuarantees {
  import opened Outcomes
  import opened Fields
  import opened Kernels
  import opened Codecs
  import opened Verification
  import opened Indices
  import opened DecodeMatrices
  import opened InversionCaches
  import opened RecoveryShapes
  import opened RecoveryRows
  import opened RecoveryPlans
  import opened ShardContainers
  import opened Reconstruction

  /** How many shards are missing. */
  function MissingCount<E>(v: Contents<E>): nat {
    if v == [] then 0 else MissingCount(v[..|v| - 1]) + (if v[|v| - 1].None? then 1 else 0)
  }

  lemma {:induction false} PresentCount<E>(v: Contents<E>, lengths: seq<ShardLength>, n: nat)
    requires n <= |v| == |lengths| && forall i :: 0 <= i < n ==> (lengths[i].Some? <==> v[i].Some?)
    ensures |Present(lengths, n)| + MissingCount(v[..n]) == n
  {
    if n > 0 {
      PresentCount(v, lengths, n - 1);
      assert v[..n][..n - 1] == v[..n - 1];
    }
  }

  /** Recovery inverts erasure: when an MDS codeword has lost at most `p` shards, no error precedes
      the restoration, for any goal. */
  lemma MdsErasuresRecoverable<E(!new)>(c: Codec<E>, word: seq<seq<E>>, len: nat, v: Contents<E>, goal: Goal)
    requires c.Valid() && c.Mds() && IsCodeword(c, word, len) && len > 0
    requires Agrees(v, word) && MissingCount(v) <= c.parityShards
    requires FlagsFit(goal, c.dataShards, c.TotalShards())
    ensures FirstError(c, LengthsOf(v), goal) == None
  {
    var lengths, n := LengthsOf(v), c.TotalShards();
    CodewordSize(c, word, len);
    UniformLengths(c, word, len, v);
    PresentCount(v, lengths, n);
    assert v[..n] == v;
    hide Present, Missing, Scan, Uniform, IsCodeword;
    ScanMeaning(lengths, n);
    if Missing(lengths, n) != [] {
      ShapeSurvivors(c, lengths);
      var shape := ShapeOf(c.dataShards, lengths).value;
      MdsSurvivors(c, shape.validIndices);
    }
  }

  lemma UniformLengths<E(!new)>(c: Codec<E>, word: seq<seq<E>>, len: nat, v: Contents<E>)
    requires c.Valid() && IsCodeword(c, word, len) && len > 0 && Agrees(v, word)
    ensures Uniform(LengthsOf(v), |v|)
    ensures forall i :: 0 <= i < |v| ==> (LengthsOf(v)[i].Some? <==> v[i].Some?)
  {
    forall i | 0 <= i < |v| && v[i].Some? ensures |v[i].value| == len {
      assert v[i].value == word[i];
    }
  }

  lemma TooFewPresent<E>(v: Contents<E>)
    ensures |Present(LengthsOf(v), |v|)| + MissingCount(v) == |v|
  {
    hide Present, MissingCount;
    assert v[..|v|] == v;
    PresentCount(v, LengthsOf(v), |v|);
  }

  /** With at least one shard too few, nothing is restored. */
  lemma TooManyErasures<E(!new)>(c: Codec<E>, v: Contents<E>, goal: Goal)
    requires c.Valid() && |v| == c.TotalShards() && FlagsFit(goal, c.dataShards, c.TotalShards())
    requires Uniform(LengthsOf(v), |v|) && MissingCount(v) > c.parityShards
    ensures FirstError(c, LengthsOf(v), goal) == Some(TooFewShardsPresent)
  {
    var lengths, n := LengthsOf(v), c.TotalShards();
    TooFewPresent(v);
    hide Present, Missing, Scan, Uniform, MissingCount, LengthsOf;
    ScanMeaning(lengths, n);
    if Missing(lengths, n) == [] {
      PresentPrefix(lengths, n);
    }
  }

  /** Which error a refused reconstruction gives: flags, count, lengths, survivors, and only then the inverse. */
  lemma PlanningErrors<E(!new)>(c: Codec<E>, lengths: seq<ShardLength>, goal: Goal)
    requires c.Valid()
    ensures var e, k, n, total := FirstError(c, lengths, goal), c.dataShards, |lengths|, c.dataShards + c.parityShards;
      if goal.Required? && |goal.flags| != k && |goal.flags| != total then e == Some(InvalidShardFlags)
      else if n < total then e == Some(TooFewShards)
      else if n > total then e == Some(TooManyShards)
      else if !Uniform(lengths, n) then Scan(lengths, n).Err? && e == Some(Scan(lengths, n).error)
      else if |Present(lengths, n)| < k then e == Some(TooFewShardsPresent)
      else e == if MustInvert(c, lengths, goal) && !TrivialKernel(c.field, Survived(c, Present(lengths, n)[..k]), k) then Some(InvalidMatrix) else None
  {
    hide *;
    PlanErrors(c, lengths, goal);
    if PlanError(c, lengths, goal).None? {
      UnsolvableMeaning(c, lengths, goal);
    }
    FirstErrorSteps(c, lengths, goal);
  }

  lemma FirstErrorSteps<E(!new)>(c: Codec<E>, lengths: seq<ShardLength>, goal: Goal)
    requires c.Valid()
    ensures FirstError(c, lengths, goal)
         == if PlanError(c, lengths, goal).Some? then PlanError(c, lengths, goal)
            else if Unsolvable(c, lengths, goal) then Some(InvalidMatrix) else None
  {
    hide PlanError, Unsolvable;
  }

  lemma PlanErrors<E(!new)>(c: Codec<E>, lengths: seq<ShardLength>, goal: Goal)
    requires c.Valid()
    ensures var e, k, n, total := PlanError(c, lengths, goal), c.dataShards, |lengths|, c.dataShards + c.parityShards;
      if goal.Required? && |goal.flags| != k && |goal.flags| != total then e == Some(InvalidShardFlags)
      else if n < total then e == Some(TooFewShards)
      else if n > total then e == Some(TooManyShards)
      else if !Uniform(lengths, n) then Scan(lengths, n).Err? && e == Some(Scan(lengths, n).error)
      else if |Present(lengths, n)| < k then e == Some(TooFewShardsPresent)
      else e.None?
  {
    var n := |lengths|;
    ScanMeaning(lengths, n);
    hide Scan, Uniform, Present, Missing;
    if Missing(lengths, n) == [] {
      PresentPrefix(lengths, n);
    }
  }

  lemma UnsolvableMeaning<E(!new)>(c: Codec<E>, lengths: seq<ShardLength>, goal: Goal)
    requires c.Valid() && PlanError(c, lengths, goal).None?
    ensures |lengths| == c.TotalShards() && |Present(lengths, |lengths|)| >= c.dataShards
    ensures Unsolvable(c, lengths, goal) <==>
      MustInvert(c, lengths, goal) && !TrivialKernel(c.field, Survived(c, Present(lengths, |lengths|)[..c.dataShards]), c.dataShards)
  {
    hide Scan, Uniform, Present, Missing, TrivialKernel, Field.Valid, Survivors, Survived, Filtered, MissingData, PartitionPoint, Ascending;
    PlanErrors(c, lengths, goal);
    DataMissing(c, lengths);
    SomethingAsked(lengths, goal);
    if Missing(lengths, |lengths|) != [] {
      ScanKnows(lengths, |lengths|);
      ShapeSucceeds(c.dataShards, lengths);
    }
  }

  /** Some data shard is missing and some missing shard stays in the target list. */
  ghost predicate MustInvert<E(!new)>(c: Codec<E>, lengths: seq<ShardLength>, goal: Goal) {
    && (exists i :: 0 <= i < |lengths| && i < c.dataShards && lengths[i].None?)
    && (exists i :: 0 <= i < |lengths| && lengths[i].None? && (goal.Required? ==> i < |goal.flags| && goal.flags[i]))
  }

  lemma DataMissing<E(!new)>(c: Codec<E>, lengths: seq<ShardLength>)
    ensures (exists i :: 0 <= i < |lengths| && i < c.dataShards && lengths[i].None?)
       <==> MissingData(Missing(lengths, |lengths|), c.dataShards) != []
    ensures Missing(lengths, |lengths|) == [] ==> MissingData(Missing(lengths, |lengths|), c.dataShards) == []
  {
    var missing := Missing(lengths, |lengths|);
    ListMembers(lengths, |lengths|);
    SomeBelow(missing, c.dataShards);
    hide Missing, Ascending;
    if MissingData(missing, c.dataShards) != [] {
      assert missing[0] in missing;
    } else {
      forall i | 0 <= i < |lengths| && lengths[i].None? ensures i >= c.dataShards {
        assert i in missing;
      }
    }
  }

  lemma SomethingAsked(lengths: seq<ShardLength>, goal: Goal)
    ensures (exists i :: 0 <= i < |lengths| && lengths[i].None? && (goal.Required? ==> i < |goal.flags| && goal.flags[i]))
       <==> Filtered(Missing(lengths, |lengths|), goal) != []
  {
    var missing := Missing(lengths, |lengths|);
    var asked := Filtered(missing, goal);
    ListMembers(lengths, |lengths|);
    FilteredMembers(missing, goal);
    hide Missing, Filtered;
    if asked != [] {
      assert asked[0] in asked;
    } else {
      forall i | 0 <= i < |lengths| && lengths[i].None? ensures !(goal.Required? ==> i < |goal.flags| && goal.flags[i]) {
        assert i in missing && i !in asked;
      }
    }
  }

  lemma SomeBelow(s: seq<nat>, bound: nat)
    requires Ascending(s)
    ensures MissingData(s, bound) != [] ==> s[0] < bound
    ensures MissingData(s, bound) == [] ==> forall i :: i in s ==> i >= bound
  {
    if MissingData(s, bound) == [] {
      forall i | i in s ensures i >= bound {
        if i < bound {
          PrefixMembers(s, bound, i);
        }
      }
    }
  }

  /** Recovery inverts erasure, in one call: an MDS codeword that has lost at most `p` shards gets back
      every lost shard the goal asks for, provided their containers can hold them. */
  method RecoverErasures<E(==, !new)>(c: Codec<E>, shards: seq<Shard<E>>, goal: Goal, cache: Option<InversionCache<Inverse<E>>>,
                                      byteRows: bool, matrixBytes: nat, ghost word: seq<seq<E>>, ghost len: nat)
    returns (r: Result<(), Error>)
    requires c.Valid() && c.Mds() && Distinct(shards) && IsCodeword(c, word, len) && len > 0
    requires Agrees(Snapshot(shards), word) && MissingCount(Snapshot(shards)) <= c.parityShards
    requires FlagsFit(goal, c.dataShards, c.TotalShards()) && !Rejected(Snapshot(shards), Accepting(shards, len), goal, c.dataShards)
    requires cache.Some? ==> cache.value.Valid() && Sound(c, cache.value.entries)
    modifies shards, if cache.Some? then {cache.value} else {}
    ensures cache.Some? ==> cache.value.Valid() && Sound(c, cache.value.entries)
    ensures r.Ok? && |shards| == |word|
    ensures forall i :: 0 <= i < |shards| && old(Snapshot(shards))[i].Some? ==> Snapshot(shards)[i] == old(Snapshot(shards))[i]
    ensures forall i :: 0 <= i < |shards| && old(Snapshot(shards))[i].None? ==>
      Snapshot(shards)[i] == (match goal
      case All => Some(word[i])
      case Data => if i < c.dataShards then Some(word[i]) else None
      case Required(flags) => if i < |flags| && flags[i] then Some(word[i]) else None)
  {
    hide *;
    ghost var was := Snapshot(shards);
    MdsErasuresRecoverable(c, word, len, was, goal);
    LengthOfWord(c, word, len, was);
    r := Reconstruct(c, shards, goal, cache, byteRows, matrixBytes, word, len);
    RecoveredAll(c, was, Snapshot(shards), old(Accepting(shards, len)), goal, word, len, r);
    RecoveredMeaning(was, Snapshot(shards), word, goal, c.dataShards);
  }

  /** With at least `k` shards left the common length is that of the codeword. */
  lemma LengthOfWord<E(!new)>(c: Codec<E>, word: seq<seq<E>>, len: nat, v: Contents<E>)
    requires c.Valid() && IsCodeword(c, word, len) && len > 0 && Agrees(v, word) && MissingCount(v) <= c.parityShards
    ensures CommonLength(LengthsOf(v)) == len
  {
    var lengths, n := LengthsOf(v), |v|;
    CodewordSize(c, word, len);
    UniformLengths(c, word, len, v);
    TooFewPresent(v);
    hide Present, Missing, Scan, Uniform, IsCodeword, MissingCount;
    ScanMeaning(lengths, n);
    ScanKnows(lengths, n);
    ListMember(lengths, n, Present(lengths, n)[0]);
    assert v[Present(lengths, n)[0]].value == word[Present(lengths, n)[0]];
    WordLength(c, word, len, Present(lengths, n)[0]);
  }

  lemma WordLength<E(!new)>(c: Codec<E>, word: seq<seq<E>>, len: nat, i: nat)
    requires c.Valid() && IsCodeword(c, word, len) && i < |word|
    ensures |word[i]| == len
  {
  }

  /** A complete recovery, read off the goal. */
  lemma RecoveredMeaning<E(!new)>(was: Contents<E>, now: Contents<E>, word: seq<seq<E>>, goal: Goal, k: nat)
    requires RecoveredFrom(was, now, word, goal, k, true)
    ensures |was| == |now| == |word|
    ensures forall i :: 0 <= i < |was| && was[i].Some? ==> now[i] == was[i]
    ensures forall i :: 0 <= i < |was| && was[i].None? ==>
      now[i] == (match goal
      case All => Some(word[i])
      case Data => if i < k then Some(word[i]) else None
      case Required(flags) => if i < |flags| && flags[i] then Some(word[i]) else None)
  {
  }

  lemma RecoveredAll<E(!new)>(c: Codec<E>, was: Contents<E>, now: Contents<E>, accepting: seq<bool>, goal: Goal,
                              word: seq<seq<E>>, len: nat, r: Result<(), Error>)
    requires c.Valid() && |accepting| == |was| && Reconstructed(c, was, now, accepting, goal, word, len, r)
    requires FirstError(c, LengthsOf(was), goal) == None && IsCodeword(c, word, len) && Agrees(was, word)
    requires !Rejected(was, accepting, goal, c.dataShards)
    ensures r.Ok? && RecoveredFrom(was, now, word, goal, c.dataShards, true)
  {
    hide FirstError, IsCodeword, Agrees, RecoveredFrom, Rejected, Restored;
  }

  // ----- prepared workspaces

  /** A plan with the format it was prepared for. */
  datatype Workspace<E(!new)> = Workspace(plan: Plan<E>, dataShards: nat, parityShards: nat, matrix: seq<seq<E>>)

  /** The plan was prepared from a layout of a codec with this format. */
  ghost predicate Prepared<E(!new)>(w: Workspace<E>, c: Codec<E>, goal: Goal, lengths: seq<ShardLength>)
    requires c.Valid()
  {
    && w.dataShards == c.dataShards && w.parityShards == c.parityShards && w.matrix == c.matrix
    && |lengths| == c.TotalShards() && PreparedShape(c.dataShards, lengths) == Ok(w.plan.shape) && w.plan.Planned(c, goal)
  }

  /** Prepares a plan for repeated use: the same checks as a reconstruction, in the same order. */
  method PrepareWorkspace<E(==, !new)>(c: Codec<E>, shards: seq<Shard<E>>, goal: Goal, cache: Option<InversionCache<Inverse<E>>>,
                                       byteRows: bool, matrixBytes: nat)
    returns (r: Result<Workspace<E>, Error>)
    requires c.Valid()
    requires cache.Some? ==> cache.value.Valid() && Sound(c, cache.value.entries)
    modifies if cache.Some? then {cache.value} else {}
    ensures cache.Some? ==> cache.value.Valid() && Sound(c, cache.value.entries)
    ensures Snapshot(shards) == old(Snapshot(shards))
    ensures r.Err? <==> FirstError(c, LengthsOf(Snapshot(shards)), goal).Some?
    ensures r.Err? ==> FirstError(c, LengthsOf(Snapshot(shards)), goal) == Some(r.error)
    ensures r.Ok? ==> Prepared(r.value, c, goal, LengthsOf(Snapshot(shards)))
  {
    hide AreInverse, TrivialKernel, Field.Valid, Sound, Survivors, Present, Missing, Scan, Filtered, Plan.Planned;
    if goal.Required? && |goal.flags| != c.dataShards && |goal.flags| != c.TotalShards() {
      return Err(InvalidShardFlags);
    }
    var lengths := ReadLengths(shards);
    var shape := ClassicReconstructShape(c.TotalShards(), c.dataShards, lengths);
    if shape.Err? {
      return Err(shape.error);
    }
    PreparedShapeFits(c, lengths);
    var plan := PreparePlan(c, shape.value, goal, cache, byteRows, matrixBytes);
    if plan.Err? {
      return Err(plan.error);
    }
    r := Ok(Workspace(plan.value, c.dataShards, c.parityShards, c.matrix));
  }

  /** A prepared shape describes survivors whenever something is missing, and nothing is missing otherwise. */
  lemma PreparedShapeFits<E(!new)>(c: Codec<E>, lengths: seq<ShardLength>)
    requires c.Valid() && |lengths| == c.TotalShards() && PreparedShape(c.dataShards, lengths).Ok?
    ensures var shape := PreparedShape(c.dataShards, lengths).value;
      && Ascending(shape.invalidIndices) && Below(shape.invalidIndices, c.TotalShards())
      && shape.numberPresent >= c.dataShards && (shape.invalidIndices == [] <==> Missing(lengths, |lengths|) == [])
      && (shape.invalidIndices != [] ==> Survivors(c, shape.validIndices, shape.invalidIndices) && ShapeOf(c.dataShards, lengths) == Ok(shape))
  {
    if Missing(lengths, |lengths|) == [] {
      PresentPrefix(lengths, |lengths|);
      ScanKnows(lengths, |lengths|);
    } else {
      ShapeSurvivors(c, lengths);
    }
  }

  /** The format checks of a workspace, before its layout is looked at. */
  function FormatError<E(!new, ==)>(c: Codec<E>, w: Workspace<E>): (e: Option<Error>)
    ensures e.None? <==> w.dataShards == c.dataShards && w.parityShards == c.parityShards && w.matrix == c.matrix
  {
    if w.dataShards < c.dataShards then Some(TooFewDataShards)
    else if w.dataShards > c.dataShards then Some(TooManyDataShards)
    else if w.parityShards < c.parityShards then Some(TooFewParityShards)
    else if w.parityShards > c.parityShards then Some(TooManyParityShards)
    else if w.matrix != c.matrix then Some(InvalidMatrix)
    else None
  }

  /** What a reused workspace reports before it touches a destination. */
  ghost function WorkspaceError<E(!new)>(c: Codec<E>, w: Workspace<E>, lengths: seq<ShardLength>): Option<Error> {
    var count := CountError(c.TotalShards(), |lengths|);
    if count.Some? then count
    else if FormatError(c, w).Some? then FormatError(c, w)
    else
      var layout := LayoutVerdict(c.TotalShards(), lengths, w.plan.shape);
      if layout.Err? then Some(layout.error) else None
  }

  /** Which error a refused workspace gives: the shard count, then the format, then the layout. */
  lemma WorkspaceErrors<E(!new)>(c: Codec<E>, w: Workspace<E>, lengths: seq<ShardLength>)
    ensures var e, n, total := WorkspaceError(c, w, lengths), |lengths|, c.dataShards + c.parityShards;
      if n < total then e == Some(TooFewShards)
      else if n > total then e == Some(TooManyShards)
      else if w.dataShards != c.dataShards then e == Some(if w.dataShards < c.dataShards then TooFewDataShards else TooManyDataShards)
      else if w.parityShards != c.parityShards then e == Some(if w.parityShards < c.parityShards then TooFewParityShards else TooManyParityShards)
      else if w.matrix != c.matrix then e == Some(InvalidMatrix)
      else if !Uniform(lengths, n) then Scan(lengths, n).Err? && e == Some(Scan(lengths, n).error)
      else if exists i :: 0 <= i < n && (lengths[i].None? != (i in w.plan.shape.invalidIndices)) then e == Some(InvalidShardFlags)
      else e.Some? ==> e == Some(IncorrectShardSize) || (e == Some(InvalidShardFlags) && Missing(lengths, n) != w.plan.shape.invalidIndices)
  {
    ScanMeaning(lengths, |lengths|);
    LayoutErrors(c.TotalShards(), lengths, w.plan.shape);
    hide Scan, Missing, Uniform;
  }

  /** Reusing a prepared plan: accepted exactly on shards whose shape is the prepared one. */
  method ReconstructWithWorkspace<E(==, !new)>(c: Codec<E>, shards: seq<Shard<E>>, w: Workspace<E>,
                                               ghost prepared: Codec<E>, ghost goal: Goal, ghost layout: seq<ShardLength>,
                                               ghost original: seq<seq<E>>)
    returns (r: Result<(), Error>)
    requires c.Valid() && Distinct(shards)
    requires prepared.Valid() && prepared.field == c.field && Prepared(w, prepared, goal, layout)
    modifies shards
    ensures WorkspaceError(c, w, LengthsOf(old(Snapshot(shards)))).Some? ==>
      r == Err(WorkspaceError(c, w, LengthsOf(old(Snapshot(shards)))).value) && Snapshot(shards) == old(Snapshot(shards))
    ensures WorkspaceError(c, w, LengthsOf(old(Snapshot(shards)))).None? ==>
      PreparedShape(c.dataShards, LengthsOf(old(Snapshot(shards)))) == Ok(w.plan.shape)
    ensures WorkspaceError(c, w, LengthsOf(old(Snapshot(shards)))).None? ==>
      (IsCodeword(c, original, w.plan.shape.shardLen) && Agrees(old(Snapshot(shards)), original) ==>
        RecoveredFrom(old(Snapshot(shards)), Snapshot(shards), original, goal, c.dataShards, r.Ok?))
    ensures WorkspaceError(c, w, LengthsOf(old(Snapshot(shards)))).None? ==>
      Restored(c, old(Snapshot(shards)), Snapshot(shards), w.plan.shape.validIndices, w.plan.shape.shardLen, goal, r.Ok?)
    ensures WorkspaceError(c, w, LengthsOf(old(Snapshot(shards)))).None? && r.Err? ==>
      r.error == IncorrectShardSize
      && Rejected(old(Snapshot(shards)), old(Accepting(shards, w.plan.shape.shardLen)), goal, c.dataShards)
  {
    hide IsCodeword, Agrees, Rejected, RecoveredFrom, Restored, Plan.Planned, Field.Valid, LayoutVerdict, PreparedShape;
    ghost var was := Snapshot(shards);
    var count := CountError(c.TotalShards(), |shards|);
    if count.Some? {
      return Err(count.value);
    }
    var format := FormatError(c, w);
    if format.Some? {
      return Err(format.value);
    }
    SameFormat(c, w, prepared, goal, layout);
    var lengths := ReadLengths(shards);
    var checked := ValidatePlanLayout(c.TotalShards(), lengths, w.plan.shape);
    assert Snapshot(shards) == was;
    if checked.Err? {
      return checked;
    }
    LayoutCheckIsExact(c.dataShards, c.TotalShards(), layout, lengths);
    PreparedMatches(c.dataShards, was, w.plan.shape);
    r := RunPlan(c, shards, w.plan, goal, original);
  }

  /** A codec with the same format shares the plan. */
  lemma SameFormat<E(!new)>(c: Codec<E>, w: Workspace<E>, prepared: Codec<E>, goal: Goal, layout: seq<ShardLength>)
    requires c.Valid() && prepared.Valid() && prepared.field == c.field && Prepared(w, prepared, goal, layout) && FormatError(c, w).None?
    ensures w.plan.Planned(c, goal) && |layout| == c.TotalShards() && PreparedShape(c.dataShards, layout) == Ok(w.plan.shape)
    ensures Ascending(w.plan.shape.invalidIndices) && Below(w.plan.shape.invalidIndices, c.TotalShards())
  {
    hide Field.Valid, AreInverse, Filtered, Present, Missing, Scan;
    assert prepared.(fastOneParity := c.fastOneParity) == c;
    SameRecovers(c, prepared);
  }

  /** Whether parity has a fast path does not matter to recovery. */
  lemma SameRecovers<E(!new)>(c: Codec<E>, d: Codec<E>)
    requires c.Valid() && d.Valid() && d.(fastOneParity := c.fastOneParity) == c
    ensures forall valid, row, target: nat ::
      |valid| == c.dataShards && Below(valid, c.TotalShards()) && target < c.TotalShards() ==>
        (Recovers(c, valid, row, target) <==> Recovers(d, valid, row, target))
  {
  }

  lemma PreparedMatches<E(!new)>(k: nat, was: Contents<E>, shape: Shape)
    requires PreparedShape(k, LengthsOf(was)) == Ok(shape)
    ensures Matches(was, shape)
  {
    var lengths := LengthsOf(was);
    ListMembers(lengths, |lengths|);
    ScanKnows(lengths, |lengths|);
    hide Present, Missing, Scan;
    forall i | 0 <= i < |was| ensures (was[i].None? <==> i in shape.invalidIndices) && (was[i].Some? ==> |was[i].value| == shape.shardLen) {
      assert lengths[i].Some? <==> was[i].Some?;
    }
  }
}
