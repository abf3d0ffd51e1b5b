/** Parallel coding: every interleaving of the scheduled slice operations ends with the matrix product. */
module ParallelCoding {
  import opened Arithmetic
  import opened Fields
  import opened Vectors
  import opened Slices
  import opened Coding
  import opened Scheduling

  /** The coding job shared by all tasks. */
  datatype Job<!E(!new)> = Job(field: Field<E>, rows: seq<seq<E>>, inputs: seq<seq<E>>, len: nat) {
    ghost predicate Valid() {
      && field.Valid() && 0 < |inputs| && IsMatrix(inputs, |inputs|, len) && IsMatrix(rows, |rows|, |inputs|)
    }

    /** A range of one output row with the first `n` inputs applied; untouched for none. */
    ghost function Range(was: seq<E>, p: Piece, n: nat): (r: seq<E>)
      requires Valid() && p.row < |rows| && p.start <= p.end <= len && |was| == len && n <= |inputs|
      ensures |r| == p.end - p.start
    {
      if n == 0 then was[p.start..p.end] else CombN(field, rows[p.row], inputs, len, n)[p.start..p.end]
    }
  }

  /** Pieces inside the outputs, no two of which share a cell. */
  ghost predicate Disjoint(pieces: seq<Piece>, rows: nat, len: nat) {
    && (forall j {:trigger pieces[j]} :: 0 <= j < |pieces| ==> pieces[j].row < rows && pieces[j].start <= pieces[j].end <= len)
    && (forall i, j :: 0 <= i < j < |pieces| ==> Apart(pieces[i], pieces[j]))
  }

  /** The outputs and how many inputs each piece has absorbed. */
  datatype State<E> = State(outputs: seq<seq<E>>, progress: seq<nat>)

  ghost predicate Fits<E(!new)>(job: Job<E>, pieces: seq<Piece>, s: State<E>) {
    && job.Valid() && Disjoint(pieces, |job.rows|, job.len) && IsMatrix(s.outputs, |job.rows|, job.len)
    && |s.progress| == |pieces| && forall j :: 0 <= j < |pieces| ==> s.progress[j] <= |job.inputs|
  }

  /** One worker applies the next input to its piece; the first input overwrites, the others accumulate. */
  ghost function Step<E(!new)>(job: Job<E>, pieces: seq<Piece>, s: State<E>, j: nat): (t: State<E>)
    requires Fits(job, pieces, s) && j < |pieces|
    ensures Fits(job, pieces, t)
  {
    var p, i := pieces[j], s.progress[j];
    if i == |job.inputs| then s
    else
      var coded := CodedRange(job.field, job.rows[p.row][i], i == 0, s.outputs[p.row], job.inputs[i], p.start, p.end);
      State(s.outputs[p.row := coded], s.progress[j := i + 1])
  }

  ghost predicate Within(schedule: seq<nat>, n: nat) {
    forall i :: 0 <= i < |schedule| ==> schedule[i] < n
  }

  /** The slice operations in the order in which they happen to run. */
  ghost function Run<E(!new)>(job: Job<E>, pieces: seq<Piece>, s: State<E>, schedule: seq<nat>): (t: State<E>)
    requires Fits(job, pieces, s) && Within(schedule, |pieces|)
    ensures Fits(job, pieces, t)
    decreases |schedule|
  {
    if schedule == [] then s
    else Step(job, pieces, Run(job, pieces, s, schedule[..|schedule| - 1]), schedule[|schedule| - 1])
  }

  /** Every piece holds exactly the inputs it has absorbed. */
  ghost predicate Consistent<E(!new)>(job: Job<E>, pieces: seq<Piece>, was: seq<seq<E>>, s: State<E>)
    requires Fits(job, pieces, s) && IsMatrix(was, |job.rows|, job.len)
  {
    forall j {:trigger pieces[j]} :: 0 <= j < |pieces| ==>
      s.outputs[pieces[j].row][pieces[j].start..pieces[j].end] == job.Range(was[pieces[j].row], pieces[j], s.progress[j])
  }

  /** Writing one range leaves every disjoint range alone. */
  lemma PatchElsewhere<E>(s: seq<E>, start: nat, v: seq<E>, a: nat, b: nat)
    requires start + |v| <= |s| && a <= b <= |s| && (b <= start || start + |v| <= a)
    ensures Patch(s, start, v)[a..b] == s[a..b]
  {
  }

  lemma PatchHere<E>(s: seq<E>, start: nat, v: seq<E>)
    requires start + |v| <= |s|
    ensures Patch(s, start, v)[start..start + |v|] == v
  {
  }

  lemma StepConsistent<E(!new)>(job: Job<E>, pieces: seq<Piece>, was: seq<seq<E>>, s: State<E>, j: nat)
    requires Fits(job, pieces, s) && IsMatrix(was, |job.rows|, job.len) && j < |pieces| && Consistent(job, pieces, was, s)
    ensures Consistent(job, pieces, was, Step(job, pieces, s, j))
  {
    hide CodedRange, Patch, Job.Range, Field.Valid;
    var p, i, t := pieces[j], s.progress[j], Step(job, pieces, s, j);
    if i < |job.inputs| {
      var before := s.outputs[p.row];
      var slice := CodedRangeSlice(job, p, i, before);
      forall l | 0 <= l < |pieces|
        ensures t.outputs[pieces[l].row][pieces[l].start..pieces[l].end] == job.Range(was[pieces[l].row], pieces[l], t.progress[l])
      {
        if l == j {
          StepHere(job, p, i, was[p.row], before);
        } else if pieces[l].row == p.row {
          assert Apart(pieces[l], p) by {
            if l < j { assert Apart(pieces[l], pieces[j]); } else { assert Apart(pieces[j], pieces[l]); }
          }
          PatchElsewhere(before, p.start, slice, pieces[l].start, pieces[l].end);
        }
      }
    }
  }

  lemma CodedRangeSlice<E(!new)>(job: Job<E>, p: Piece, i: nat, before: seq<E>) returns (slice: seq<E>)
    requires job.Valid() && p.row < |job.rows| && p.start <= p.end <= job.len == |before| && i < |job.inputs|
    ensures |slice| == p.end - p.start
    ensures CodedRange(job.field, job.rows[p.row][i], i == 0, before, job.inputs[i], p.start, p.end) == Patch(before, p.start, slice)
  {
    var scaled := Scale(job.field, job.rows[p.row][i], job.inputs[i][p.start..p.end]);
    slice := if i == 0 then scaled else AddVec(job.field, before[p.start..p.end], scaled);
  }

  lemma StepHere<E(!new)>(job: Job<E>, p: Piece, i: nat, was: seq<E>, before: seq<E>)
    requires job.Valid() && p.row < |job.rows| && p.start <= p.end <= job.len == |before| == |was| && i < |job.inputs|
    requires before[p.start..p.end] == job.Range(was, p, i)
    ensures CodedRange(job.field, job.rows[p.row][i], i == 0, before, job.inputs[i], p.start, p.end)[p.start..p.end] == job.Range(was, p, i + 1)
  {
    hide CombN, AddVec, Scale, Field.Valid, Patch;
    var scaled := Scale(job.field, job.rows[p.row][i], job.inputs[i][p.start..p.end]);
    CodedSlice(job.field, job.rows[p.row], job.inputs, job.len, p.start, p.end, i);
    PatchHere(before, p.start, if i == 0 then scaled else AddVec(job.field, before[p.start..p.end], scaled));
  }

  lemma {:induction false} RunConsistent<E(!new)>(job: Job<E>, pieces: seq<Piece>, s: State<E>, schedule: seq<nat>)
    requires Fits(job, pieces, s) && Within(schedule, |pieces|) && forall j :: 0 <= j < |pieces| ==> s.progress[j] == 0
    ensures Consistent(job, pieces, s.outputs, Run(job, pieces, s, schedule))
    decreases |schedule|
  {
    if schedule != [] {
      RunConsistent(job, pieces, s, schedule[..|schedule| - 1]);
      StepConsistent(job, pieces, s.outputs, Run(job, pieces, s, schedule[..|schedule| - 1]), schedule[|schedule| - 1]);
    }
  }

  /** In whatever order the workers' slice operations interleave, once all pieces are done the outputs
      are the matrix product, whatever they held before. */
  lemma AnyInterleaving<E(!new)>(job: Job<E>, chunk: nat, s: State<E>, schedule: seq<nat>)
    requires chunk > 0 && Fits(job, AllChunks(|job.rows|, job.len, chunk), s)
    requires Within(schedule, |s.progress|)
    requires forall j :: 0 <= j < |s.progress| ==> s.progress[j] == 0
    requires forall j :: 0 <= j < |s.progress| ==> Run(job, AllChunks(|job.rows|, job.len, chunk), s, schedule).progress[j] == |job.inputs|
    ensures Run(job, AllChunks(|job.rows|, job.len, chunk), s, schedule).outputs == MatMul(job.field, job.rows, job.inputs, job.len)
  {
    var pieces := AllChunks(|job.rows|, job.len, chunk);
    var t := Run(job, pieces, s, schedule);
    RunConsistent(job, pieces, s, schedule);
    forall j {:trigger pieces[j]} | 0 <= j < |pieces|
      ensures t.outputs[pieces[j].row][pieces[j].start..pieces[j].end] == job.Range(t.outputs[pieces[j].row], pieces[j], |job.inputs|)
    {
      assert job.Range(s.outputs[pieces[j].row], pieces[j], |job.inputs|) == job.Range(t.outputs[pieces[j].row], pieces[j], |job.inputs|);
    }
    PaintedAll(job, chunk, t.outputs);
  }

  /** The chunks of a schedule are disjoint, so the machine above describes them. */
  lemma ChunksDisjoint(rows: nat, len: nat, chunk: nat)
    requires chunk > 0
    ensures Disjoint(AllChunks(rows, len, chunk), rows, len)
  {
    var pieces := AllChunks(rows, len, chunk);
    forall j | 0 <= j < |pieces| ensures pieces[j].row < rows && pieces[j].start <= pieces[j].end <= len {
      RowsBelow(rows, len, chunk, j);
    }
    forall i, j | 0 <= i < j < |pieces| ensures Apart(pieces[i], pieces[j]) {
      ChunksApart(rows, len, chunk, i, j);
    }
  }

  /** The slice operations still outstanding. */
  ghost function Remaining(progress: seq<nat>, inputs: nat): nat
    requires forall j :: 0 <= j < |progress| ==> progress[j] <= inputs
  {
    if progress == [] then 0 else Remaining(progress[..|progress| - 1], inputs) + (inputs - progress[|progress| - 1])
  }

  lemma {:induction false} StepUsesOne(progress: seq<nat>, inputs: nat, j: nat)
    requires j < |progress| && progress[j] < inputs && forall l :: 0 <= l < |progress| ==> progress[l] <= inputs
    ensures Remaining(progress[j := progress[j] + 1], inputs) == Remaining(progress, inputs) - 1
  {
    var n := |progress|;
    var next := progress[j := progress[j] + 1];
    if j == n - 1 {
      assert next[..n - 1] == progress[..n - 1];
    } else {
      StepUsesOne(progress[..n - 1], inputs, j);
      assert next[..n - 1] == progress[..n - 1][j := progress[j] + 1];
    }
  }

  // ----- the callback, and one execution of the tasks

  /** Codes one chunk of one output. */
  method ProcessChunk<E(!new)>(job: Job<E>, p: Piece, output: array<E>)
    requires job.Valid() && p.row < |job.rows| && p.start <= p.end <= job.len == output.Length
    modifies output
    ensures output[..] == Patch(old(output[..]), p.start, job.Range(old(output[..]), p, |job.inputs|))
  {
    hide Patch, CombN, AddVec, Scale, Field.Valid;
    ghost var was := output[..];
    var row := job.rows[p.row];
    CodedSlice(job.field, row, job.inputs, job.len, p.start, p.end, 0);
    MulSlice(job.field, row[0], job.inputs[0][p.start..p.end], output, p.start);
    for i := 1 to |job.inputs|
      invariant output[..] == Patch(was, p.start, job.Range(was, p, i))
    {
      PatchHere(was, p.start, job.Range(was, p, i));
      CodedSlice(job.field, row, job.inputs, job.len, p.start, p.end, i);
      PatchTwice(was, p.start, job.Range(was, p, i), job.Range(was, p, i + 1));
      assert output[p.start..p.end] == output[..][p.start..p.start + (p.end - p.start)];
      MulSliceAdd(job.field, row[i], job.inputs[i][p.start..p.end], output, p.start);
    }
  }

  lemma PatchTwice<E>(s: seq<E>, start: nat, v: seq<E>, w: seq<E>)
    requires start + |v| <= |s| && |w| == |v|
    ensures Patch(Patch(s, start, v), start, w) == Patch(s, start, w)
  {
  }

  /** The first pieces of a list are coded. */
  ghost predicate Painted<E(!new)>(job: Job<E>, pieces: seq<Piece>, outputs: seq<seq<E>>, n: nat)
    requires job.Valid() && Disjoint(pieces, |job.rows|, job.len) && IsMatrix(outputs, |job.rows|, job.len) && n <= |pieces|
  {
    forall j {:trigger pieces[j]} :: 0 <= j < n ==>
      outputs[pieces[j].row][pieces[j].start..pieces[j].end] == job.Range(outputs[pieces[j].row], pieces[j], |job.inputs|)
  }

  lemma PaintedStep<E(!new)>(job: Job<E>, pieces: seq<Piece>, outputs: seq<seq<E>>, n: nat)
    requires job.Valid() && Disjoint(pieces, |job.rows|, job.len) && IsMatrix(outputs, |job.rows|, job.len) && n < |pieces|
    requires Painted(job, pieces, outputs, n)
    ensures var p := pieces[n];
      var was := outputs[p.row];
      Painted(job, pieces, outputs[p.row := Patch(was, p.start, job.Range(was, p, |job.inputs|))], n + 1)
  {
    var p := pieces[n];
    var was := outputs[p.row];
    var coded := job.Range(was, p, |job.inputs|);
    var after := outputs[p.row := Patch(was, p.start, coded)];
    forall j | 0 <= j < n + 1
      ensures after[pieces[j].row][pieces[j].start..pieces[j].end] == job.Range(after[pieces[j].row], pieces[j], |job.inputs|)
    {
      var q := pieces[j];
      if j == n {
        PatchHere(was, p.start, coded);
      } else if q.row == p.row {
        assert Apart(pieces[j], pieces[n]);
        PatchElsewhere(was, p.start, coded, q.start, q.end);
      }
    }
  }

  /** When every chunk is coded the outputs are the matrix product. */
  lemma PaintedAll<E(!new)>(job: Job<E>, chunk: nat, outputs: seq<seq<E>>)
    requires chunk > 0 && job.Valid() && Disjoint(AllChunks(|job.rows|, job.len, chunk), |job.rows|, job.len)
    requires IsMatrix(outputs, |job.rows|, job.len)
    requires Painted(job, AllChunks(|job.rows|, job.len, chunk), outputs, |AllChunks(|job.rows|, job.len, chunk)|)
    ensures outputs == MatMul(job.field, job.rows, job.inputs, job.len)
  {
    var pieces := AllChunks(|job.rows|, job.len, chunk);
    forall row | 0 <= row < |job.rows| ensures outputs[row] == Comb(job.field, job.rows[row], job.inputs, job.len) {
      forall column | 0 <= column < job.len ensures outputs[row][column] == Comb(job.field, job.rows[row], job.inputs, job.len)[column] {
        var j := CellCovered(|job.rows|, job.len, chunk, row, column);
        var p := pieces[j];
        assert outputs[row][p.start..p.end][column - p.start] == job.Range(outputs[row], p, |job.inputs|)[column - p.start];
      }
    }
  }

  lemma EmptyProduct<E(!new)>(job: Job<E>, outputs: seq<seq<E>>)
    requires job.Valid() && IsMatrix(outputs, |job.rows|, job.len) && (job.len == 0 || |job.rows| == 0)
    ensures outputs == MatMul(job.field, job.rows, job.inputs, job.len)
  {
  }

  lemma PaintedStart<E(!new)>(job: Job<E>, pieces: seq<Piece>, outputs: seq<seq<E>>)
    requires job.Valid() && Disjoint(pieces, |job.rows|, job.len) && IsMatrix(outputs, |job.rows|, job.len)
    ensures Painted(job, pieces, outputs, 0)
  {
  }

  lemma PieceInside(pieces: seq<Piece>, rows: nat, len: nat, j: nat)
    requires Disjoint(pieces, rows, len) && j < |pieces|
    ensures pieces[j].row < rows && pieces[j].start <= pieces[j].end <= len
  {
  }

  /** The parallel coding loop, run task after task: at most `jobs` tasks, together the matrix product. */
  method CodeSomeSlicesScheduled<E(!new)>(job: Job<E>, outputs: seq<array<E>>, chunkLen: nat, jobs: nat)
    requires job.Valid() && |outputs| == |job.rows| && Owners(outputs, job.len) && job.len <= USIZE_MAX
    modifies outputs
    ensures Views(outputs) == MatMul(job.field, job.rows, job.inputs, job.len)
  {
    hide Painted, AllChunks, Flatten, Disjoint, Patch, Job.Range, MatMul, Field.Valid;
    var shardLen := |job.inputs[0]|;
    if shardLen == 0 || |outputs| == 0 {
      EmptyProduct(job, Views(outputs));
      return;
    }
    var tasks := PlanTasks(|outputs|, shardLen, chunkLen, jobs);
    ghost var chunk := Min(Max(chunkLen, 1), shardLen);
    ghost var pieces := AllChunks(|outputs|, shardLen, chunk);
    ChunksDisjoint(|outputs|, shardLen, chunk);
    ghost var visited := 0;
    FlattenStart(tasks);
    PaintedStart(job, pieces, Views(outputs));
    for t := 0 to |tasks|
      invariant visited == |Flatten(tasks[..t])| <= |pieces| && Painted(job, pieces, Views(outputs), visited)
    {
      FlattenPrefix(tasks, t);
      for i := 0 to |tasks[t]|
        invariant visited == |Flatten(tasks[..t])| + i <= |pieces| && Painted(job, pieces, Views(outputs), visited)
      {
        var p := tasks[t][i];
        assert p == pieces[visited];
        PieceInside(pieces, |outputs|, shardLen, visited);
        ghost var before := Views(outputs);
        PaintedStep(job, pieces, before, visited);
        ProcessChunk(job, p, outputs[p.row]);
        assert Views(outputs) == before[p.row := Patch(before[p.row], p.start, job.Range(before[p.row], p, |job.inputs|))];
        visited := visited + 1;
      }
    }
    assert tasks[..|tasks|] == tasks;
    PaintedAll(job, chunk, Views(outputs));
  }
}
