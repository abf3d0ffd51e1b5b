/** Whether to run in parallel, with how many jobs and which chunk length. */
module Policies {
  import opened Arithmetic
  import opened Coding
  import opened Scheduling

  const ALIGNMENT: nat := 64

  datatype Policy = Policy(minParallelShardBytes: nat, minBytesPerJob: nat, maxJobs: nat, l2CacheBytes: nat)

  datatype Decision = Decision(useParallel: bool, jobs: nat, chunkLen: nat)

  /** Rounds down to the alignment, but never below it. */
  function AlignChunkLen(chunkLen: nat): (r: nat)
    ensures r <= chunkLen && (chunkLen > 0 ==> r > 0)
    ensures chunkLen >= ALIGNMENT ==> r % ALIGNMENT == 0 && r + ALIGNMENT > chunkLen
  {
    if chunkLen >= ALIGNMENT then chunkLen / ALIGNMENT * ALIGNMENT else chunkLen
  }

  /** The job limit after the machine and the policy have had their say. */
  function JobLimit(p: Policy, available: nat): (j: nat)
    ensures j > 0 && j <= Max(available, 1) && (p.maxJobs > 0 ==> j <= p.maxJobs)
    ensures j == Max(available, 1) || j == p.maxJobs
  {
    Max(if p.maxJobs == 0 then Max(available, 1) else Min(p.maxJobs, Max(available, 1)), 1)
  }

  /** Division rounding down. */
  function Quotient(a: nat, b: nat): (q: nat)
    requires b > 0
    ensures q * b <= a < (q + 1) * b
  {
    a / b
  }

  /** How long a chunk of every active shard may be to fit the cache. */
  function CacheChunkLen(p: Policy, dataShards: nat, outputShards: nat): (c: nat)
    ensures c > 0
    ensures p.l2CacheBytes == 0 ==> c == USIZE_MAX
    ensures p.l2CacheBytes > 0 ==> (c == 1 || c * ActiveShards(dataShards, outputShards) <= p.l2CacheBytes)
                                   && p.l2CacheBytes < (c + 1) * ActiveShards(dataShards, outputShards)
  {
    if p.l2CacheBytes == 0 then USIZE_MAX else Max(Quotient(p.l2CacheBytes, ActiveShards(dataShards, outputShards)), 1)
  }

  function ActiveShards(dataShards: nat, outputShards: nat): (n: nat)
    ensures n > 0
  {
    Max(SaturatingAdd(dataShards, outputShards), 1)
  }

  function ChunkCap(p: Policy, shardSize: nat, dataShards: nat, outputShards: nat): (c: nat)
    ensures c <= shardSize && (shardSize > 0 ==> c > 0)
    ensures c <= CacheChunkLen(p, dataShards, outputShards) && (c <= 0x4000 || c <= p.minBytesPerJob)
    ensures c == shardSize || c == CacheChunkLen(p, dataShards, outputShards) || c == Max(p.minBytesPerJob, 0x4000)
  {
    Min(Min(Max(p.minBytesPerJob, MIN_CHUNK), CacheChunkLen(p, dataShards, outputShards)), shardSize)
  }

  /** How many jobs could have a chunk of their own. */
  function UsefulJobs(shardSize: nat, outputShards: nat, cap: nat): nat
    requires cap > 0
  {
    var chunks := Max(CeilDiv(shardSize, cap), 1);
    Max(if outputShards <= 2 then chunks else SaturatingMul(outputShards, chunks), 1)
  }

  function Decide(p: Policy, shardSize: nat, dataShards: nat, outputShards: nat, available: nat): (d: Decision) {
    if shardSize == 0 || dataShards == 0 || outputShards == 0 then Decision(false, 1, shardSize)
    else
      var cap := ChunkCap(p, shardSize, dataShards, outputShards);
      var jobs := Max(Min(JobLimit(p, available), UsefulJobs(shardSize, outputShards, cap)), 1);
      if shardSize < Max(p.minParallelShardBytes, 1) || jobs < 2 then
        Decision(false, 1, AlignChunkLen(Min(SerialChunkLen(shardSize), CacheChunkLen(p, dataShards, outputShards))))
      else
        var perOutput := Max(1, CeilDiv(jobs, outputShards));
        Decision(true, jobs, Min(AlignChunkLen(Min(CeilDiv(shardSize, perOutput), cap)), shardSize))
  }

  /** A decision stays within every limit: the chunk advances and fits the shard, the cache budget holds,
      and in parallel there are at least two jobs, at most the allowed ones, each with a chunk to work on. */
  lemma DecisionBounds(p: Policy, shardSize: nat, dataShards: nat, outputShards: nat, available: nat)
    ensures var d := Decide(p, shardSize, dataShards, outputShards, available);
      && d.chunkLen <= shardSize && (shardSize > 0 ==> d.chunkLen > 0)
      && (dataShards == 0 || outputShards == 0 ==> d == Decision(false, 1, shardSize))
      && (p.l2CacheBytes > 0 && dataShards > 0 && outputShards > 0 && d.chunkLen > 1 ==>
            d.chunkLen * Min(dataShards + outputShards, USIZE_MAX) <= p.l2CacheBytes)
      && d.jobs > 0 && d.jobs <= JobLimit(p, available) && (d.useParallel <==> d.jobs >= 2)
      && (d.useParallel ==> shardSize >= p.minParallelShardBytes && d.jobs <= outputShards * CeilDiv(shardSize, d.chunkLen))
  {
    var d := Decide(p, shardSize, dataShards, outputShards, available);
    if shardSize > 0 && dataShards > 0 && outputShards > 0 {
      var cap, cache := ChunkCap(p, shardSize, dataShards, outputShards), CacheChunkLen(p, dataShards, outputShards);
      assert d.chunkLen <= cache;
      MulMonotone(d.chunkLen, cache, ActiveShards(dataShards, outputShards));
      if d.useParallel {
        ChunkPositive(shardSize, Max(1, CeilDiv(d.jobs, outputShards)));
        assert 0 < d.chunkLen <= cap;
        SmallerPartsAreMore(shardSize, d.chunkLen, cap);
        EveryJobHasAChunk(shardSize, outputShards, cap, CeilDiv(shardSize, d.chunkLen));
      }
    }
  }

  /** Parallel exactly when the shard is long enough, more than one job is allowed, and there is more
      than one piece to hand out; then as many jobs as allowed, or as there are pieces. */
  lemma ParallelExactly(p: Policy, shardSize: nat, dataShards: nat, outputShards: nat, available: nat)
    requires shardSize > 0 && dataShards > 0 && outputShards > 0
    ensures var d := Decide(p, shardSize, dataShards, outputShards, available);
      var cap := ChunkCap(p, shardSize, dataShards, outputShards);
      && (d.useParallel <==> shardSize >= p.minParallelShardBytes && JobLimit(p, available) >= 2
                             && (outputShards > 2 || shardSize > cap))
      && (d.useParallel ==>
            d.jobs == Min(JobLimit(p, available), if outputShards <= 2 then CeilDiv(shardSize, cap)
                                                  else Min(outputShards * CeilDiv(shardSize, cap), USIZE_MAX)))
  {
    hide CacheChunkLen, JobLimit, SerialChunkLen, ChunkCap, AlignChunkLen;
    var cap := ChunkCap(p, shardSize, dataShards, outputShards);
    ChunkPositive(shardSize, cap);
    if shardSize > cap {
      assert CeilDiv(shardSize, cap) >= 2;
    } else {
      CeilDivLeast(shardSize, cap, 1);
    }
    if outputShards > 2 {
      MulMonotone(1, CeilDiv(shardSize, cap), outputShards);
    }
  }

  /** The chunk lengths that the limits admit: within the shard and the cache budget; in serial within the band of
      the shard's size, in parallel within the bytes per job and one job's share of an output. */
  ghost predicate Admissible(p: Policy, shardSize: nat, dataShards: nat, outputShards: nat, d: Decision, chunk: nat)
    requires outputShards > 0
  {
    && chunk <= shardSize
    && (p.l2CacheBytes > 0 ==> chunk <= 1 || chunk * Min(dataShards + outputShards, USIZE_MAX) <= p.l2CacheBytes)
    && if d.useParallel then
         (chunk <= p.minBytesPerJob || chunk <= 0x4000) && (chunk > 0 ==> (chunk - 1) * CeilDiv(d.jobs, outputShards) < shardSize)
       else
         chunk <= if shardSize <= 0x4000 then shardSize else if shardSize <= 0x1_0000 then 0x4000
                  else if shardSize <= 0x40_0000 then 0x1_0000 else 0x4_0000
  }

  /** The target of a decision before alignment. */
  ghost function Target(p: Policy, shardSize: nat, dataShards: nat, outputShards: nat, d: Decision): nat
    requires outputShards > 0
  {
    if d.useParallel then Min(CeilDiv(shardSize, Max(1, CeilDiv(d.jobs, outputShards))), ChunkCap(p, shardSize, dataShards, outputShards))
    else Min(SerialChunkLen(shardSize), CacheChunkLen(p, dataShards, outputShards))
  }

  lemma TargetIsLargest(p: Policy, shardSize: nat, dataShards: nat, outputShards: nat, d: Decision, chunk: nat)
    requires shardSize > 0 && dataShards > 0 && outputShards > 0 && d.jobs > 0
    ensures Admissible(p, shardSize, dataShards, outputShards, d, chunk) && shardSize <= USIZE_MAX
        ==> chunk <= Target(p, shardSize, dataShards, outputShards, d)
  {
    var active, cache := Min(dataShards + outputShards, USIZE_MAX), CacheChunkLen(p, dataShards, outputShards);
    if Admissible(p, shardSize, dataShards, outputShards, d, chunk) && shardSize <= USIZE_MAX {
      hide ChunkCap, CacheChunkLen, Quotient, CeilDiv;
      if chunk > cache {
        MulMonotone(cache + 1, chunk, active);
      }
      if d.useParallel {
        var parts := CeilDiv(d.jobs, outputShards);
        ChunkPositive(d.jobs, outputShards);
        if chunk > CeilDiv(shardSize, parts) {
          MulMonotone(CeilDiv(shardSize, parts), chunk - 1, parts);
        }
      }
    }
  }

  lemma TargetAdmissible(p: Policy, shardSize: nat, dataShards: nat, outputShards: nat, d: Decision, chunk: nat)
    requires shardSize > 0 && dataShards > 0 && outputShards > 0 && d.jobs > 0 && chunk <= Target(p, shardSize, dataShards, outputShards, d)
    ensures Admissible(p, shardSize, dataShards, outputShards, d, chunk)
  {
    var active, cache := Min(dataShards + outputShards, USIZE_MAX), CacheChunkLen(p, dataShards, outputShards);
    hide ChunkCap, CacheChunkLen, Quotient, CeilDiv;
    MulMonotone(chunk, cache, active);
    if d.useParallel {
      var parts := CeilDiv(d.jobs, outputShards);
      ChunkPositive(d.jobs, outputShards);
      ChunkPositive(shardSize, parts);
      if chunk > 0 {
        MulMonotone(chunk - 1, CeilDiv(shardSize, parts) - 1, parts);
      }
    }
  }

  /** The decided chunk is the longest admissible multiple of 64 bytes, or the longest admissible chunk
      when not even 64 bytes are admissible. */
  lemma LongestChunk(p: Policy, shardSize: nat, dataShards: nat, outputShards: nat, available: nat, chunk: nat)
    requires 0 < shardSize <= USIZE_MAX && dataShards > 0 && outputShards > 0
    ensures var d := Decide(p, shardSize, dataShards, outputShards, available);
      && Admissible(p, shardSize, dataShards, outputShards, d, d.chunkLen)
      && (Admissible(p, shardSize, dataShards, outputShards, d, chunk) && (chunk % 64 == 0 || d.chunkLen < 64) ==> chunk <= d.chunkLen)
  {
    var d := Decide(p, shardSize, dataShards, outputShards, available);
    DecidedTarget(p, shardSize, dataShards, outputShards, available);
    hide Decide, Admissible, Target;
    TargetIsLargest(p, shardSize, dataShards, outputShards, d, chunk);
    TargetAdmissible(p, shardSize, dataShards, outputShards, d, d.chunkLen);
    LongestAligned(Target(p, shardSize, dataShards, outputShards, d), chunk);
  }

  lemma DecidedTarget(p: Policy, shardSize: nat, dataShards: nat, outputShards: nat, available: nat)
    requires shardSize > 0 && dataShards > 0 && outputShards > 0
    ensures var d := Decide(p, shardSize, dataShards, outputShards, available);
      d.jobs > 0 && d.chunkLen == AlignChunkLen(Target(p, shardSize, dataShards, outputShards, d))
  {
    hide ChunkCap, CacheChunkLen, JobLimit, UsefulJobs, SerialChunkLen, CeilDiv;
  }

  lemma LongestAligned(target: nat, chunk: nat)
    ensures AlignChunkLen(target) <= target
    ensures chunk <= target && (chunk % 64 == 0 || AlignChunkLen(target) < 64) ==> chunk <= AlignChunkLen(target)
  {
  }

  /** Chunks keep the 64-byte boundaries, unless they are shorter than that. */
  lemma ChunksAligned(p: Policy, shardSize: nat, dataShards: nat, outputShards: nat, available: nat)
    requires shardSize > 0 && dataShards > 0 && outputShards > 0
    ensures var d := Decide(p, shardSize, dataShards, outputShards, available);
      d.chunkLen < ALIGNMENT || d.chunkLen % ALIGNMENT == 0
  {
    hide CeilDiv, CacheChunkLen, JobLimit, UsefulJobs, SerialChunkLen;
    var d := Decide(p, shardSize, dataShards, outputShards, available);
    if d.useParallel {
      assert ChunkCap(p, shardSize, dataShards, outputShards) <= shardSize;
    }
  }

  lemma ChunkPositive(len: nat, parts: nat)
    requires len > 0 && parts > 0
    ensures CeilDiv(len, parts) > 0
  {
  }

  lemma EveryJobHasAChunk(shardSize: nat, outputShards: nat, cap: nat, chunks: nat)
    requires cap > 0 && shardSize > 0 && outputShards > 0 && CeilDiv(shardSize, cap) <= chunks
    ensures UsefulJobs(shardSize, outputShards, cap) <= outputShards * chunks
  {
    ChunkPositive(shardSize, cap);
    var count := CeilDiv(shardSize, cap);
    MulMonotone(count, chunks, outputShards);
    MulMonotone(1, outputShards, chunks);
    assert outputShards * chunks == chunks * outputShards && outputShards * count == count * outputShards;
  }

  /** The chunk length in elements of a wider field. */
  function DecideForElements(p: Policy, shardLen: nat, elementSize: nat, dataShards: nat, outputShards: nat, available: nat): Decision {
    var size := Max(elementSize, 1);
    var d := Decide(p, SaturatingMul(shardLen, size), dataShards, outputShards, available);
    d.(chunkLen := if shardLen == 0 then 0 else Min(Max(Quotient(d.chunkLen, size), 1), shardLen))
  }

  /** Byte limits carry over to elements; a chunk is at least one element and never beyond the shard. */
  lemma ElementDecisionBounds(p: Policy, shardLen: nat, elementSize: nat, dataShards: nat, outputShards: nat, available: nat)
    ensures var bytes := Decide(p, SaturatingMul(shardLen, Max(elementSize, 1)), dataShards, outputShards, available);
      var d := DecideForElements(p, shardLen, elementSize, dataShards, outputShards, available);
      && d.chunkLen <= shardLen && (shardLen > 0 ==> d.chunkLen > 0)
      && (d.chunkLen < shardLen ==> bytes.chunkLen < (d.chunkLen + 1) * Max(elementSize, 1))
      && (d.chunkLen > 1 ==> d.chunkLen * Max(elementSize, 1) <= bytes.chunkLen)
      && d.useParallel == bytes.useParallel && d.jobs == bytes.jobs
  {
    hide Decide, SaturatingMul, Quotient, JobLimit, CacheChunkLen, ChunkCap, AlignChunkLen;
    var size := Max(elementSize, 1);
    var bytes := Decide(p, SaturatingMul(shardLen, size), dataShards, outputShards, available);
    if shardLen > 0 {
      ElementChunk(bytes.chunkLen, size, shardLen);
    }
  }

  lemma ElementChunk(bytes: nat, size: nat, shardLen: nat)
    requires size > 0 && shardLen > 0
    ensures var chunk := Min(Max(Quotient(bytes, size), 1), shardLen);
      && 0 < chunk <= shardLen && (chunk < shardLen ==> bytes < (chunk + 1) * size) && (chunk > 1 ==> chunk * size <= bytes)
  {
    hide Quotient;
    var q, chunk := Quotient(bytes, size), Min(Max(Quotient(bytes, size), 1), shardLen);
    if chunk > 1 {
      MulMonotone(chunk, q, size);
    }
    if chunk < shardLen {
      MulMonotone(q + 1, chunk + 1, size);
    }
  }

  // ----- native jobs

  /** The 64-byte-multiple group length of the native multi-output jobs. */
  function NativeGroupLen(shardLen: nat, jobLimit: nat): (g: nat)
    requires jobLimit > 0
  {
    CeilDiv(CeilDiv(shardLen, jobLimit), ALIGNMENT) * ALIGNMENT
  }

  /** The jobs start at multiples of 64 bytes, stay within the limit and tile the shard. */
  lemma NativeJobsTile(shardLen: nat, jobLimit: nat)
    requires shardLen > 0 && jobLimit > 0
    ensures var group := NativeGroupLen(shardLen, jobLimit);
      && group > 0 && group % 64 == 0 && (group - 64) * jobLimit < shardLen
      && var jobs := CeilDiv(shardLen, group);
         && 0 < jobs <= jobLimit && (jobs - 1) * group < shardLen <= jobs * group
  {
    ChunkPositive(shardLen, jobLimit);
    var group := NativeGroupLen(shardLen, jobLimit);
    ChunkPositive(shardLen, group);
    MulMonotone(CeilDiv(shardLen, jobLimit), group, jobLimit);
    assert group * jobLimit == jobLimit * group;
    CeilDivLeast(shardLen, group, jobLimit);
    MulMonotone(group - 64, CeilDiv(shardLen, jobLimit) - 1, jobLimit);
  }
}
