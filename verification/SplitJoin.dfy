/** Splitting a payload into equal shards and joining it back. */
module SplitJoin {
  import opened Outcomes
  import opened Arithmetic
  import opened Fields
  import opened Vectors
  import opened Slices
  import opened Codecs
  import opened Encoding
  import opened Scheduling

  const LEOPARD_SHARD_MULTIPLE: nat := 64
  const LARGEST_ALIGNED: nat := 0xFFFF_FFFF_FFFF_FFC0
  /** Half of the address space, rounded up. */
  const HALF: nat := 0x8000_0000_0000_0000
  /** No slice is longer than this. */
  const ISIZE_MAX: nat := 0x7FFF_FFFF_FFFF_FFFF

  // ----- aligned shard lengths

  function LeopardAlignedShardLen(dataLen: nat, dataShards: nat): (len: nat) {
    RoundUp(CeilDiv(dataLen, if dataShards == 0 then 1 else dataShards))
  }

  /** The next multiple, clamped at both ends. */
  function RoundUp(perShard: nat): (len: nat) {
    var remainder := perShard % LEOPARD_SHARD_MULTIPLE;
    var rounded := if remainder == 0 then perShard else SaturatingAdd(perShard, LEOPARD_SHARD_MULTIPLE - remainder);
    var clamped := Max(rounded, LEOPARD_SHARD_MULTIPLE);
    clamped - clamped % LEOPARD_SHARD_MULTIPLE
  }

  lemma RoundUpIsLeast(share: nat)
    requires share <= USIZE_MAX
    ensures var len := RoundUp(share);
      && len % LEOPARD_SHARD_MULTIPLE == 0 && 0 < len <= LARGEST_ALIGNED
      && (len >= share <==> share <= LARGEST_ALIGNED)
      && (share <= LARGEST_ALIGNED ==> len < share + LEOPARD_SHARD_MULTIPLE || len == LEOPARD_SHARD_MULTIPLE)
      && (share > LARGEST_ALIGNED ==> len == LARGEST_ALIGNED)
  {
  }

  lemma ShareFits(dataLen: nat, shards: nat)
    requires shards > 0
    ensures CeilDiv(dataLen, shards) <= dataLen
  {
    MulMonotone(1, shards, dataLen);
    assert dataLen * shards == shards * dataLen;
    CeilDivLeast(dataLen, shards, dataLen);
  }

  /** Always a nonzero multiple of 64 that fits; it holds every byte exactly when the rounded-up share
      does not pass the largest multiple that fits, and then it is the least such multiple. */
  lemma AlignedLenIsLeast(dataLen: nat, dataShards: nat)
    requires dataLen <= USIZE_MAX
    ensures var len := LeopardAlignedShardLen(dataLen, dataShards);
      var share := CeilDiv(dataLen, if dataShards == 0 then 1 else dataShards);
      && len % LEOPARD_SHARD_MULTIPLE == 0 && 0 < len <= LARGEST_ALIGNED
      && (len >= share <==> share <= LARGEST_ALIGNED)
      && (share <= LARGEST_ALIGNED ==> len < share + LEOPARD_SHARD_MULTIPLE || len == LEOPARD_SHARD_MULTIPLE)
      && (share > LARGEST_ALIGNED ==> len == LARGEST_ALIGNED)
  {
    hide CeilDiv, RoundUp;
    ShareFits(dataLen, if dataShards == 0 then 1 else dataShards);
    RoundUpIsLeast(CeilDiv(dataLen, if dataShards == 0 then 1 else dataShards));
  }

  /** Every byte finds room in the shards, unless a single shard would have to be longer than the
      largest aligned length: there the documented saturation sets in. */
  lemma AlignedShardsHoldPayload(dataLen: nat, dataShards: nat)
    requires dataLen <= USIZE_MAX
    ensures dataLen <= Max(dataShards, 1) * LeopardAlignedShardLen(dataLen, dataShards)
       <==> dataShards >= 2 || dataLen <= LARGEST_ALIGNED
  {
    hide CeilDiv, RoundUp;
    var shards := Max(dataShards, 1);
    var share, len := CeilDiv(dataLen, shards), LeopardAlignedShardLen(dataLen, dataShards);
    AlignedLenIsLeast(dataLen, dataShards);
    if dataShards >= 2 {
      CeilDivLeast(dataLen, shards, HALF);
      MulMonotone(2, shards, HALF);
      MulMonotone(share, len, shards);
    } else {
      ShareFits(dataLen, 1);
    }
    assert shards * len == len * shards;
  }

  /** The saturation at a concrete length: one shard of the largest representable size. */
  lemma SaturationCutsSingleShard()
    ensures LeopardAlignedShardLen(USIZE_MAX, 1) == LARGEST_ALIGNED < USIZE_MAX
  {
    AlignedLenIsLeast(USIZE_MAX, 1);
  }

  // ----- split

  function ShardLen(dataLen: nat, dataShards: nat, leopard: bool): nat
    requires dataShards > 0
  {
    if leopard then LeopardAlignedShardLen(dataLen, dataShards) else CeilDiv(dataLen, dataShards)
  }

  /** All shards, end to end. */
  function Concat<E>(shards: seq<seq<E>>): seq<E> {
    if shards == [] then [] else Concat(shards[..|shards| - 1]) + shards[|shards| - 1]
  }

  /** The payload followed by padding. */
  ghost function Padded<E(!new)>(f: Field<E>, data: seq<E>, total: nat): (p: seq<E>)
    requires |data| <= total
    ensures |p| == total
  {
    data + Zeros(f, total - |data|)
  }

  lemma ShardsHoldPayload(dataLen: nat, dataShards: nat, leopard: bool)
    requires dataShards > 0 && dataLen <= ISIZE_MAX
    ensures dataLen <= dataShards * ShardLen(dataLen, dataShards, leopard)
  {
    var share := CeilDiv(dataLen, dataShards);
    if leopard {
      AlignedLenIsLeast(dataLen, dataShards);
      ShareFits(dataLen, dataShards);
      MulMonotone(share, ShardLen(dataLen, dataShards, leopard), dataShards);
    }
    assert dataShards * ShardLen(dataLen, dataShards, leopard) == ShardLen(dataLen, dataShards, leopard) * dataShards;
  }

  /** The shard length is the least that will do: to the element for Classic, to the block for Leopard. */
  lemma ShardLenIsLeast(dataLen: nat, dataShards: nat, leopard: bool)
    requires dataShards > 0 && dataLen <= ISIZE_MAX
    ensures var len := ShardLen(dataLen, dataShards, leopard);
      && (!leopard ==> if dataLen == 0 then len == 0 else len > 0 && dataShards * (len - 1) < dataLen)
      && (leopard ==> len > 0 && len % 64 == 0 && (len == 64 || dataShards * (len - 64) < dataLen))
  {
    hide LeopardAlignedShardLen;
    var share, len := CeilDiv(dataLen, dataShards), ShardLen(dataLen, dataShards, leopard);
    NonEmptyShare(dataLen, dataShards);
    if dataLen > 0 {
      LeastShare(dataLen, dataShards, share);
    }
    AlignedLenIsLeast(dataLen, dataShards);
    ShareFits(dataLen, dataShards);
    if leopard && len > 64 {
      assert len - 64 <= share - 1;
      MulMonotone(len - 64, share - 1, dataShards);
      assert dataShards * (len - 64) == (len - 64) * dataShards && dataShards * (share - 1) == (share - 1) * dataShards;
    }
  }

  lemma LeastShare(dataLen: nat, dataShards: nat, share: nat)
    requires dataShards > 0 && share == CeilDiv(dataLen, dataShards) > 0
    ensures dataShards * (share - 1) < dataLen
  {
    assert dataShards * (share - 1) == (share - 1) * dataShards;
  }

  /** Equal shards that together are the payload with zero padding. */
  method Split<E(!new)>(f: Field<E>, dataShards: nat, leopard: bool, data: seq<E>) returns (shards: seq<seq<E>>)
    requires dataShards > 0 && |data| <= ISIZE_MAX
    ensures |shards| == dataShards && forall i :: 0 <= i < dataShards ==> |shards[i]| == |shards[0]|
    ensures |data| <= dataShards * |shards[0]|
    ensures !leopard ==> if data == [] then |shards[0]| == 0 else |shards[0]| > 0 && dataShards * (|shards[0]| - 1) < |data|
    ensures leopard ==> |shards[0]| > 0 && |shards[0]| % 64 == 0
    ensures leopard ==> |shards[0]| == 64 || dataShards * (|shards[0]| - 64) < |data|
    ensures Concat(shards) == Padded(f, data, dataShards * |shards[0]|)
  {
    hide Padded, ShardLen, Patch;
    ShardLenIsLeast(|data|, dataShards, leopard);
    var shardLen := ShardLen(|data|, dataShards, leopard);
    ShardsHoldPayload(|data|, dataShards, leopard);
    ghost var all := Padded(f, data, dataShards * shardLen);
    shards := [];
    for i := 0 to dataShards
      invariant IsMatrix(shards, i, shardLen) && i * shardLen <= dataShards * shardLen && Concat(shards) == all[..i * shardLen]
    {
      NextShard(i, dataShards, shardLen);
      var start := i * shardLen;
      var end := Min(start + shardLen, |data|);
      var shard := Zeros(f, shardLen);
      if start < |data| {
        shard := Patch(shard, 0, data[start..end]);
      }
      PaddedSlice(f, data, dataShards * shardLen, start, shardLen, shard);
      assert (shards + [shard])[..|shards|] == shards;
      assert all[..start] + all[start..start + shardLen] == all[..start + shardLen];
      shards := shards + [shard];
    }
    assert all[..dataShards * shardLen] == all;
  }

  /** A zeroed shard with its part of the payload copied in is a slice of the padded payload. */
  lemma PaddedSlice<E(!new)>(f: Field<E>, data: seq<E>, total: nat, start: nat, len: nat, shard: seq<E>)
    requires |data| <= total && start + len <= total
    requires shard == if start < |data| then Patch(Zeros(f, len), 0, data[start..Min(start + len, |data|)]) else Zeros(f, len)
    ensures shard == Padded(f, data, total)[start..start + len]
  {
  }

  lemma NextShard(i: nat, n: nat, len: nat)
    requires i < n
    ensures (i + 1) * len == i * len + len && i * len + len <= n * len
  {
    MulMonotone(i + 1, n, len);
    assert (i + 1) * len == i * len + len;
  }

  // ----- join

  function JoinCheck<E(!new)>(dataShards: nat, lens: seq<nat>): (e: Option<Error>)
    requires dataShards > 0
    ensures e.None? <==> |lens| == dataShards && lens[0] > 0 && AllOfLength(lens, lens[0])
  {
    var count := CheckCount(|lens|, dataShards, TooFewDataShards, TooManyDataShards);
    if count.Some? then count else CheckSlices(lens)
  }

  lemma JoinErrors<E(!new)>(dataShards: nat, lens: seq<nat>)
    requires dataShards > 0
    ensures CountReported(JoinCheck<E>(dataShards, lens), |lens|, dataShards, TooFewDataShards, TooManyDataShards)
    ensures |lens| == dataShards ==> LengthsReported(JoinCheck<E>(dataShards, lens), lens)
  {
  }

  /** The first `outLen` elements of the shards end to end, or all of them if there are fewer. */
  method Join<E(!new)>(dataShards: nat, shards: seq<seq<E>>, outLen: nat) returns (r: Result<seq<E>, Error>)
    requires dataShards > 0 && outLen <= USIZE_MAX
    ensures r.Err? <==> JoinCheck<E>(dataShards, Lengths(shards)).Some?
    ensures r.Err? ==> r.error == JoinCheck<E>(dataShards, Lengths(shards)).value
    ensures r.Ok? ==> r.value == Concat(shards)[..Min(outLen, |Concat(shards)|)]
  {
    hide Concat;
    var check := JoinCheck<E>(dataShards, Lengths(shards));
    if check.Some? {
      return Err(check.value);
    }
    forall i | 0 <= i < |shards| ensures |shards[i]| == |shards[0]| {
      assert Lengths(shards)[i] == Lengths(shards)[0];
    }
    var available := SaturatingMul(|shards[0]|, |shards|);
    var targetLen := Min(outLen, available);
    ConcatLength(shards, |shards[0]|);
    var result: seq<E> := [];
    var i := 0;
    NothingJoined(shards);
    while i < |shards| && |result| < targetLen
      invariant i <= |shards| && result == Concat(shards[..i])[..Min(targetLen, |Concat(shards[..i])|)]
    {
      var remaining := targetLen - |result|;
      var toTake := Min(remaining, |shards[i]|);
      JoinStep(shards, i, targetLen, result);
      result := result + shards[i][..toTake];
      i := i + 1;
    }
    JoinedPrefix(shards, i, targetLen);
    r := Ok(result);
  }

  lemma NothingJoined<E>(shards: seq<seq<E>>)
    ensures Concat(shards[..0]) == []
  {
  }

  /** The next shard, as far as it is wanted, extends the prefix. */
  lemma JoinStep<E>(shards: seq<seq<E>>, i: nat, target: nat, prefix: seq<E>)
    requires i < |shards| && prefix == Concat(shards[..i])[..Min(target, |Concat(shards[..i])|)] && |prefix| < target
    ensures prefix + shards[i][..Min(target - |prefix|, |shards[i]|)]
         == Concat(shards[..i + 1])[..Min(target, |Concat(shards[..i + 1])|)]
  {
    assert shards[..i + 1][..i] == shards[..i];
  }

  lemma {:induction false} ConcatLength<E>(shards: seq<seq<E>>, len: nat)
    requires forall i :: 0 <= i < |shards| ==> |shards[i]| == len
    ensures |Concat(shards)| == len * |shards|
  {
    if shards != [] {
      ConcatLength(shards[..|shards| - 1], len);
      assert len * |shards| == len * (|shards| - 1) + len;
    }
  }

  lemma {:induction false} ConcatPrefix<E>(shards: seq<seq<E>>, i: nat)
    requires i <= |shards|
    ensures Concat(shards[..i]) <= Concat(shards)
  {
    if i < |shards| {
      ConcatPrefix(shards[..|shards| - 1], i);
      assert shards[..|shards| - 1][..i] == shards[..i];
    } else {
      assert shards[..i] == shards;
    }
  }

  /** Once the target is reached, later shards do not matter. */
  lemma JoinedPrefix<E>(shards: seq<seq<E>>, i: nat, target: nat)
    requires i <= |shards| && target <= |Concat(shards)|
    requires i == |shards| || |Concat(shards[..i])| >= target
    ensures Concat(shards[..i])[..Min(target, |Concat(shards[..i])|)] == Concat(shards)[..target]
  {
    ConcatPrefix(shards, i);
    assert shards[..|shards|] == shards;
  }

  /** Joining what was split returns the payload; only the empty Classic payload, whose shards are
      empty, is refused. */
  method SplitThenJoin<E(!new)>(f: Field<E>, dataShards: nat, leopard: bool, data: seq<E>) returns (r: Result<seq<E>, Error>)
    requires dataShards > 0 && |data| <= ISIZE_MAX
    ensures r == Ok(data) <==> leopard || |data| > 0
    ensures !(leopard || |data| > 0) ==> r == Err(EmptyShard)
  {
    hide Padded, Concat;
    var shards := Split(f, dataShards, leopard, data);
    PaddedPrefix(f, data, dataShards * |shards[0]|);
    forall i | 0 <= i < |shards| ensures Lengths(shards)[i] == Lengths(shards)[0] {
    }
    r := Join(dataShards, shards, |data|);
  }

  lemma PaddedPrefix<E(!new)>(f: Field<E>, data: seq<E>, total: nat)
    requires |data| <= total
    ensures Padded(f, data, total)[..|data|] == data
  {
  }

  lemma NonEmptyShare(len: nat, parts: nat)
    requires parts > 0
    ensures CeilDiv(len, parts) > 0 <==> len > 0
  {
  }
}
