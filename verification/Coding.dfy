/** The coding loops: every variant overwrites its outputs with one matrix product. */
module Coding {
  import opened Fields
  import opened Vectors
  import opened Slices

  const MIN_CHUNK: nat := 16 * 1024
  const DEFAULT_CHUNK: nat := 64 * 1024
  const LARGE_CHUNK: nat := 256 * 1024

  /** Output buffers are different buffers of one length. */
  ghost predicate Owners<E>(outputs: seq<array<E>>, len: nat) {
    && (forall i :: 0 <= i < |outputs| ==> outputs[i].Length == len)
    && (forall i, j :: 0 <= i < j < |outputs| ==> outputs[i] != outputs[j])
  }

  /** The contents of all output buffers. */
  ghost function Views<E>(outputs: seq<array<E>>): (v: seq<seq<E>>)
    reads outputs
    ensures |v| == |outputs|
    ensures forall i {:trigger v[i]} :: 0 <= i < |v| ==> v[i] == outputs[i][..]
  {
    seq(|outputs|, i requires 0 <= i < |outputs| reads outputs => outputs[i][..])
  }

  // ----- one row, one chunk

  /** The effect of one slice operation on one output. */
  function CodedRange<E(!new)>(f: Field<E>, c: E, first: bool, was: seq<E>, input: seq<E>, start: nat, end: nat): (r: seq<E>)
    requires start <= end <= |was| && |input| == |was|
    ensures |r| == |was|
  {
    Patch(was, start, if first then Scale(f, c, input[start..end]) else AddVec(f, was[start..end], Scale(f, c, input[start..end])))
  }

  /** An output row whose columns before `start` are coded, with `i` inputs applied up to `end`. */
  ghost function PartialRow<E(!new)>(f: Field<E>, row: seq<E>, inputs: seq<seq<E>>, was: seq<E>, start: nat, end: nat, i: nat): (r: seq<E>)
    requires IsMatrix(inputs, |row|, |was|) && start <= end <= |was| && i <= |row|
    ensures |r| == |was|
  {
    Comb(f, row, inputs, |was|)[..start]
    + (if i == 0 then was[start..end] else CombN(f, row, inputs, |was|, i)[start..end])
    + was[end..]
  }

  /** One more input changes a range of the combination by one scaled slice; the first one overwrites. */
  lemma CodedSlice<E(!new)>(f: Field<E>, row: seq<E>, inputs: seq<seq<E>>, w: nat, start: nat, end: nat, i: nat)
    requires f.Valid() && IsMatrix(inputs, |row|, w) && start <= end <= w && i < |row|
    ensures CombN(f, row, inputs, w, i + 1)[start..end]
         == if i == 0 then Scale(f, row[0], inputs[0][start..end])
            else AddVec(f, CombN(f, row, inputs, w, i)[start..end], Scale(f, row[i], inputs[i][start..end]))
  {
    var scaled := Scale(f, row[i], inputs[i][start..end]);
    forall j | 0 <= j < end - start
      ensures CombN(f, row, inputs, w, i + 1)[start..end][j]
           == if i == 0 then scaled[j] else f.Add(CombN(f, row, inputs, w, i)[start..end][j], scaled[j])
    {
      f.Laws(scaled[j], f.zero, f.zero);
    }
  }

  lemma PartialRowStep<E(!new)>(f: Field<E>, row: seq<E>, inputs: seq<seq<E>>, was: seq<E>, start: nat, end: nat, i: nat)
    requires f.Valid() && IsMatrix(inputs, |row|, |was|) && start <= end <= |was| && i < |row|
    ensures CodedRange(f, row[i], i == 0, PartialRow(f, row, inputs, was, start, end, i), inputs[i], start, end)
         == PartialRow(f, row, inputs, was, start, end, i + 1)
  {
    hide AddVec, Scale, CombN, Field.Valid, Patch;
    CodedSlice(f, row, inputs, |was|, start, end, i);
    var head, tail := Comb(f, row, inputs, |was|)[..start], was[end..];
    var cur := if i == 0 then was[start..end] else CombN(f, row, inputs, |was|, i)[start..end];
    var scaled := Scale(f, row[i], inputs[i][start..end]);
    assert (head + cur + tail)[start..end] == cur;
    PatchMiddle(head, cur, tail, if i == 0 then scaled else AddVec(f, cur, scaled));
  }

  lemma PatchMiddle<T>(x: seq<T>, y: seq<T>, z: seq<T>, v: seq<T>)
    requires |v| == |y|
    ensures Patch(x + y + z, |x|, v) == x + v + z
  {
  }

  lemma PartialRowChunk<E(!new)>(f: Field<E>, row: seq<E>, inputs: seq<seq<E>>, was: seq<E>, start: nat, end: nat, end': nat)
    requires f.Valid() && IsMatrix(inputs, |row|, |was|) && 0 < |row| && start <= end <= end' <= |was|
    ensures PartialRow(f, row, inputs, was, start, end, |row|) == PartialRow(f, row, inputs, was, end, end', 0)
  {
  }

  // ----- the serial loop

  /** Applies one input to the range `start .. end` of every output. */
  method CodeSingleSliceRange<E(!new)>(f: Field<E>, rows: seq<seq<E>>, i: nat, input: seq<E>, outputs: seq<array<E>>, start: nat, end: nat)
    requires Owners(outputs, |input|) && start <= end <= |input|
    requires |rows| == |outputs| && forall r :: 0 <= r < |rows| ==> i < |rows[r]|
    modifies outputs
    ensures forall r :: 0 <= r < |outputs| ==>
      outputs[r][..] == CodedRange(f, rows[r][i], i == 0, old(outputs[r][..]), input, start, end)
  {
    hide CodedRange;
    for r := 0 to |outputs|
      invariant forall s :: 0 <= s < r ==>
        outputs[s][..] == CodedRange(f, rows[s][i], i == 0, old(outputs[s][..]), input, start, end)
      invariant forall s :: r <= s < |outputs| ==> outputs[s][..] == old(outputs[s][..])
    {
      CodeRange(f, rows[r][i], i == 0, input, outputs[r], start, end);
    }
  }

  /** One slice operation: the first input overwrites its range, the others accumulate. */
  method CodeRange<E(!new)>(f: Field<E>, c: E, first: bool, input: seq<E>, output: array<E>, start: nat, end: nat)
    requires output.Length == |input| && start <= end <= |input|
    modifies output
    ensures output[..] == CodedRange(f, c, first, old(output[..]), input, start, end)
  {
    if first {
      MulSlice(f, c, input[start..end], output, start);
    } else {
      MulSliceAdd(f, c, input[start..end], output, start);
    }
  }

  function SerialChunkLen(shardLen: nat): nat {
    if shardLen <= MIN_CHUNK then shardLen
    else if shardLen <= DEFAULT_CHUNK then MIN_CHUNK
    else if shardLen <= 4 * 1024 * 1024 then DEFAULT_CHUNK
    else LARGE_CHUNK
  }

  /** Never zero for a nonempty shard, so the chunk loop advances. */
  function CodeChunkLen(shardLen: nat): (c: nat)
    ensures c <= shardLen && (shardLen > 0 ==> c > 0)
  {
    if SerialChunkLen(shardLen) < shardLen then SerialChunkLen(shardLen) else shardLen
  }

  /** Up to 16 KiB in one chunk; chunks of 16 KiB up to 64 KiB, of 64 KiB up to 4 MiB, of 256 KiB beyond. */
  lemma ChunkLenBands(shardLen: nat)
    ensures CodeChunkLen(shardLen) ==
      if shardLen <= 0x4000 then shardLen else if shardLen <= 0x1_0000 then 0x4000
      else if shardLen <= 0x40_0000 then 0x1_0000 else 0x4_0000
  {
  }

  /** Codes one chunk: every input into every output. */
  method CodeChunk<E(!new)>(f: Field<E>, rows: seq<seq<E>>, inputs: seq<seq<E>>, outputs: seq<array<E>>, len: nat, start: nat, end: nat, ghost was: seq<seq<E>>)
    requires f.Valid() && IsMatrix(inputs, |inputs|, len) && IsMatrix(rows, |outputs|, |inputs|)
    requires Owners(outputs, len) && start <= end <= len && IsMatrix(was, |outputs|, len)
    requires forall r :: 0 <= r < |outputs| ==> outputs[r][..] == PartialRow(f, rows[r], inputs, was[r], start, end, 0)
    modifies outputs
    ensures forall r :: 0 <= r < |outputs| ==> outputs[r][..] == PartialRow(f, rows[r], inputs, was[r], start, end, |inputs|)
  {
    hide CodedRange, PartialRow, f.Valid;
    for i := 0 to |inputs|
      invariant forall r :: 0 <= r < |outputs| ==> outputs[r][..] == PartialRow(f, rows[r], inputs, was[r], start, end, i)
    {
      forall r | 0 <= r < |outputs|
        ensures CodedRange(f, rows[r][i], i == 0, PartialRow(f, rows[r], inputs, was[r], start, end, i), inputs[i], start, end)
             == PartialRow(f, rows[r], inputs, was[r], start, end, i + 1)
      {
        PartialRowStep(f, rows[r], inputs, was[r], start, end, i);
      }
      CodeSingleSliceRange(f, rows, i, inputs[i], outputs, start, end);
    }
  }

  /** The chunked serial coding loop computes the matrix product, whatever the outputs held. */
  method CodeSomeSlices<E(!new)>(f: Field<E>, rows: seq<seq<E>>, inputs: seq<seq<E>>, outputs: seq<array<E>>, len: nat)
    requires f.Valid() && 0 < |inputs| && IsMatrix(inputs, |inputs|, len) && IsMatrix(rows, |outputs|, |inputs|)
    requires Owners(outputs, len)
    modifies outputs
    ensures Views(outputs) == MatMul(f, rows, inputs, len)
  {
    ghost var was := Views(outputs);
    var shardLen := |inputs[0]|;
    if shardLen == 0 {
      assert Views(outputs) == MatMul(f, rows, inputs, len);
      return;
    }
    var chunkLen := CodeChunkLen(shardLen);
    var start := 0;
    while start < shardLen
      invariant start <= shardLen
      invariant forall r :: 0 <= r < |outputs| ==> outputs[r][..] == PartialRow(f, rows[r], inputs, was[r], start, start, 0)
    {
      var end := if start + chunkLen < shardLen then start + chunkLen else shardLen;
      ChunkEdges(f, rows, inputs, was, len, start, end);
      CodeChunk(f, rows, inputs, outputs, len, start, end, was);
      start := end;
    }
    forall r | 0 <= r < |outputs| ensures outputs[r][..] == Comb(f, rows[r], inputs, len) {
      assert was[r][len..] == [] && Comb(f, rows[r], inputs, len)[..len] == Comb(f, rows[r], inputs, len);
    }
  }

  lemma ChunkEdges<E(!new)>(f: Field<E>, rows: seq<seq<E>>, inputs: seq<seq<E>>, was: seq<seq<E>>, len: nat, start: nat, end: nat)
    requires f.Valid() && 0 < |inputs| && IsMatrix(inputs, |inputs|, len) && IsMatrix(rows, |was|, |inputs|) && IsMatrix(was, |was|, len)
    requires start <= end <= len
    ensures forall r :: 0 <= r < |was| ==>
      && PartialRow(f, rows[r], inputs, was[r], start, start, 0) == PartialRow(f, rows[r], inputs, was[r], start, end, 0)
      && PartialRow(f, rows[r], inputs, was[r], start, end, |inputs|) == PartialRow(f, rows[r], inputs, was[r], end, end, 0)
  {
    forall r | 0 <= r < |was|
      ensures PartialRow(f, rows[r], inputs, was[r], start, start, 0) == PartialRow(f, rows[r], inputs, was[r], start, end, 0)
      ensures PartialRow(f, rows[r], inputs, was[r], start, end, |inputs|) == PartialRow(f, rows[r], inputs, was[r], end, end, 0)
    {
      PartialRowChunk(f, rows[r], inputs, was[r], start, end, end);
    }
  }
}
