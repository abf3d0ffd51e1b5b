/** The chunk scheduler: how outputs are cut into chunks and grouped into bounded tasks. */
module Scheduling {
  import opened Arithmetic

  /** The columns `start .. end` of one output row. */
  datatype Piece = Piece(row: nat, start: nat, end: nat)

  function Min(a: nat, b: nat): nat { if a < b then a else b }

  function Max(a: nat, b: nat): nat { if a < b then b else a }

  function SaturatingMul(a: nat, b: nat): nat { Min(a * b, USIZE_MAX) }

  function SaturatingAdd(a: nat, b: nat): nat { Min(a + b, USIZE_MAX) }

  // ----- the serial order of all chunks

  /** The chunks of a row between two columns. */
  function RowChunks(row: nat, from: nat, to: nat, chunk: nat): (s: seq<Piece>)
    requires chunk > 0
    decreases if from < to then to - from else 0
  {
    if from >= to then [] else [Piece(row, from, Min(from + chunk, to))] + RowChunks(row, from + chunk, to, chunk)
  }

  /** Row after row. */
  function AllChunks(rows: nat, len: nat, chunk: nat): seq<Piece>
    requires chunk > 0
  {
    if rows == 0 then [] else AllChunks(rows - 1, len, chunk) + RowChunks(rows - 1, 0, len, chunk)
  }

  /** Cutting a row at a chunk boundary cuts its chunk list. */
  lemma {:induction false} RowChunksSplit(row: nat, from: nat, n: nat, mid: nat, to: nat, chunk: nat)
    requires chunk > 0 && mid == from + n * chunk && mid <= to
    ensures RowChunks(row, from, mid, chunk) + RowChunks(row, mid, to, chunk) == RowChunks(row, from, to, chunk)
    decreases n
  {
    if n > 0 {
      FirstChunkFits(from, n, mid, chunk);
      RowChunksSplit(row, from + chunk, n - 1, mid, to, chunk);
      var a, b, c := RowChunks(row, from + chunk, mid, chunk), RowChunks(row, mid, to, chunk), [Piece(row, from, from + chunk)];
      assert c + (a + b) == (c + a) + b;
    }
  }

  lemma FirstChunkFits(from: nat, n: nat, mid: nat, chunk: nat)
    requires n > 0 && mid == from + n * chunk
    ensures mid == from + chunk + (n - 1) * chunk && from + chunk <= mid
  {
    assert n * chunk == chunk + (n - 1) * chunk;
  }

  /** The `i`-th chunk of a row starts `i` chunk lengths on and is whole, or the tail. */
  lemma {:induction false} ChunkAt(row: nat, from: nat, to: nat, chunk: nat, i: nat)
    requires chunk > 0 && i < |RowChunks(row, from, to, chunk)|
    ensures var start := from + i * chunk;
      start < to && RowChunks(row, from, to, chunk)[i] == Piece(row, start, Min(start + chunk, to))
    decreases i
  {
    if i > 0 {
      ChunkAt(row, from + chunk, to, chunk, i - 1);
      assert i * chunk == chunk + (i - 1) * chunk;
    }
  }

  /** Two pieces share no cell. */
  ghost predicate Apart(p: Piece, q: Piece) {
    p.row != q.row || p.end <= q.start || q.end <= p.start
  }

  lemma {:induction false} RowsBelow(rows: nat, len: nat, chunk: nat, i: nat)
    requires chunk > 0 && i < |AllChunks(rows, len, chunk)|
    ensures var p := AllChunks(rows, len, chunk)[i];
      p.row < rows && p.start < p.end <= len && p.end - p.start <= chunk && exists q: nat :: p.start == q * chunk
    decreases rows
  {
    var before := |AllChunks(rows - 1, len, chunk)|;
    if i < before {
      RowsBelow(rows - 1, len, chunk, i);
    } else {
      ChunkAt(rows - 1, 0, len, chunk, i - before);
    }
  }

  /** No cell is visited twice. */
  lemma {:induction false} ChunksApart(rows: nat, len: nat, chunk: nat, i: nat, j: nat)
    requires chunk > 0 && i < j < |AllChunks(rows, len, chunk)|
    ensures Apart(AllChunks(rows, len, chunk)[i], AllChunks(rows, len, chunk)[j])
    decreases rows
  {
    var before := |AllChunks(rows - 1, len, chunk)|;
    if j < before {
      ChunksApart(rows - 1, len, chunk, i, j);
    } else if i < before {
      RowsBelow(rows - 1, len, chunk, i);
      ChunkAt(rows - 1, 0, len, chunk, j - before);
    } else {
      RowChunksApart(rows - 1, len, chunk, i - before, j - before);
    }
  }

  lemma RowChunksApart(row: nat, len: nat, chunk: nat, i: nat, j: nat)
    requires chunk > 0 && i < j < |RowChunks(row, 0, len, chunk)|
    ensures RowChunks(row, 0, len, chunk)[i].end <= RowChunks(row, 0, len, chunk)[j].start
  {
    ChunkAt(row, 0, len, chunk, i);
    ChunkAt(row, 0, len, chunk, j);
    MulMonotone(i + 1, j, chunk);
    assert (i + 1) * chunk == i * chunk + chunk;
  }

  lemma {:induction false} RowCovered(row: nat, from: nat, to: nat, chunk: nat, column: nat) returns (i: nat)
    requires chunk > 0 && from <= column < to
    ensures i < |RowChunks(row, from, to, chunk)|
    ensures var p := RowChunks(row, from, to, chunk)[i]; p.row == row && p.start <= column < p.end
    decreases column - from
  {
    if column < from + chunk {
      i := 0;
    } else {
      i := RowCovered(row, from + chunk, to, chunk, column);
      i := i + 1;
    }
  }

  /** Every cell is visited. */
  lemma {:induction false} CellCovered(rows: nat, len: nat, chunk: nat, row: nat, column: nat) returns (i: nat)
    requires chunk > 0 && row < rows && column < len
    ensures i < |AllChunks(rows, len, chunk)|
    ensures var p := AllChunks(rows, len, chunk)[i]; p.row == row && p.start <= column < p.end
    decreases rows
  {
    if row == rows - 1 {
      i := RowCovered(row, 0, len, chunk, column);
      i := i + |AllChunks(rows - 1, len, chunk)|;
    } else {
      i := CellCovered(rows - 1, len, chunk, row, column);
    }
  }

  // ----- the tasks

  /** What the tasks visit, task after task. */
  function Flatten(tasks: seq<seq<Piece>>): seq<Piece> {
    if tasks == [] then [] else Flatten(tasks[..|tasks| - 1]) + tasks[|tasks| - 1]
  }

  /** The pieces of a task lie within so many adjacent rows and so many columns. */
  ghost predicate Spans(task: seq<Piece>, rows: nat, columns: nat) {
    forall p, q :: p in task && q in task ==> p.row < q.row + rows && p.end <= q.start + columns
  }

  lemma {:induction false} RowChunksInside(row: nat, from: nat, to: nat, chunk: nat)
    requires chunk > 0
    ensures forall p :: p in RowChunks(row, from, to, chunk) ==> p.row == row && from <= p.start <= p.end <= to
    decreases if from < to then to - from else 0
  {
    if from < to {
      RowChunksInside(row, from + chunk, to, chunk);
    }
  }

  /** Chunks of one group of columns, visited by one task. */
  method GroupChunks(row: nat, from: nat, to: nat, chunk: nat) returns (pieces: seq<Piece>)
    requires chunk > 0 && from <= to
    ensures pieces == RowChunks(row, from, to, chunk)
  {
    pieces := [];
    var start := from;
    while start < to
      invariant from <= start
      invariant pieces + RowChunks(row, start, to, chunk) == RowChunks(row, from, to, chunk)
      decreases if start < to then to - start else 0
    {
      var piece := Piece(row, start, Min(start + chunk, to));
      assert pieces + ([piece] + RowChunks(row, start + chunk, to, chunk)) == (pieces + [piece]) + RowChunks(row, start + chunk, to, chunk);
      pieces := pieces + [piece];
      start := start + chunk;
    }
  }

  /** The tasks of the scheduler.  In task order they visit exactly the serial chunk list, and there
      are never more of them than jobs. */
  method PlanTasks(outputCount: nat, shardLen: nat, requestedChunk: nat, requestedJobs: nat) returns (tasks: seq<seq<Piece>>)
    requires shardLen <= USIZE_MAX
    ensures outputCount == 0 || shardLen == 0 ==> tasks == []
    ensures outputCount > 0 && shardLen > 0 ==>
      Flatten(tasks) == AllChunks(outputCount, shardLen, Min(Max(requestedChunk, 1), shardLen))
    ensures |tasks| <= Max(requestedJobs, 1)
    ensures 0 < Max(requestedJobs, 1) <= outputCount ==>
      forall task :: task in tasks ==> Spans(task, CeilDiv(outputCount, Max(requestedJobs, 1)), shardLen)
    ensures 0 < outputCount < requestedJobs && shardLen > 0 ==>
      var chunk := Min(Max(requestedChunk, 1), shardLen);
      forall task :: task in tasks ==> Spans(task, 1, CeilDiv(CeilDiv(shardLen, chunk), requestedJobs / outputCount) * chunk)
  {
    if outputCount == 0 || shardLen == 0 {
      return [];
    }
    var chunk := Min(Max(requestedChunk, 1), shardLen);
    var jobs := Max(requestedJobs, 1);
    if outputCount >= jobs {
      tasks := GroupedTasks(outputCount, shardLen, chunk, jobs);
    } else {
      tasks := SplitTasks(outputCount, shardLen, chunk, jobs);
    }
  }

  /** Whole outputs, grouped: `ceil(outputs / jobs)` of them per task. */
  method GroupedTasks(outputCount: nat, shardLen: nat, chunk: nat, jobs: nat) returns (tasks: seq<seq<Piece>>)
    requires 0 < jobs <= outputCount && chunk > 0
    ensures Flatten(tasks) == AllChunks(outputCount, shardLen, chunk) && |tasks| <= jobs
    ensures forall task :: task in tasks ==> Spans(task, CeilDiv(outputCount, jobs), shardLen)
  {
    hide Spans, AllChunks, Flatten, Advanced;
    var perJob := CeilDiv(outputCount, jobs);
    NothingYet(shardLen, chunk);
    AdvancedStart(perJob, outputCount);
    tasks := [];
    var row := 0;
    while row < outputCount
      invariant Advanced(|tasks|, perJob, outputCount, row) && row <= outputCount
      invariant Flatten(tasks) == AllChunks(row, shardLen, chunk)
      invariant forall task :: task in tasks ==> Spans(task, perJob, shardLen)
      decreases outputCount - row
    {
      var upto := Min(row + perJob, outputCount);
      var task := WholeOutputs(row, upto, shardLen, chunk);
      WiderSpan(task, upto - row, perJob, shardLen);
      FlattenAppend(tasks, task);
      AdvancedStep(|tasks|, perJob, outputCount, row);
      tasks := tasks + [task];
      row := upto;
    }
    AdvancedFew(|tasks|, perJob, outputCount, row, jobs);
  }

  /** The chunks of some adjacent outputs. */
  method WholeOutputs(from: nat, upto: nat, shardLen: nat, chunk: nat) returns (task: seq<Piece>)
    requires from <= upto && chunk > 0
    ensures AllChunks(from, shardLen, chunk) + task == AllChunks(upto, shardLen, chunk)
    ensures Spans(task, upto - from, shardLen)
  {
    hide RowChunks, AllChunks;
    task := [];
    for output := from to upto
      invariant AllChunks(from, shardLen, chunk) + task == AllChunks(output, shardLen, chunk)
      invariant forall p :: p in task ==> from <= p.row < output && p.end <= shardLen
    {
      RowChunksInside(output, 0, shardLen, chunk);
      NextRow(output, shardLen, chunk);
      var pieces := GroupChunks(output, 0, shardLen, chunk);
      assert (AllChunks(from, shardLen, chunk) + task) + pieces == AllChunks(from, shardLen, chunk) + (task + pieces);
      task := task + pieces;
    }
  }

  lemma WiderSpan(task: seq<Piece>, rows: nat, more: nat, columns: nat)
    requires Spans(task, rows, columns) && rows <= more
    ensures Spans(task, more, columns)
  {
  }

  lemma FlattenAppend(tasks: seq<seq<Piece>>, task: seq<Piece>)
    ensures Flatten(tasks + [task]) == Flatten(tasks) + task
  {
    assert (tasks + [task])[..|tasks|] == tasks;
  }

  lemma FewGroups(groups: nat, size: nat, total: nat, limit: nat)
    requires groups > 0 ==> (groups - 1) * size < total
    requires total <= size * limit
    ensures groups <= limit
  {
    if groups > limit {
      MulMonotone(limit, groups - 1, size);
    }
  }

  /** The share of one row in the job budget. */
  function RowJobs(row: nat, outputCount: nat, jobs: nat): nat
    requires outputCount > 0
  {
    jobs / outputCount + (if row < jobs % outputCount then 1 else 0)
  }

  function Budget(rows: nat, outputCount: nat, jobs: nat): nat
    requires outputCount > 0
  {
    if rows == 0 then 0 else Budget(rows - 1, outputCount, jobs) + RowJobs(rows - 1, outputCount, jobs)
  }

  lemma {:induction false} BudgetPrefix(rows: nat, outputCount: nat, jobs: nat)
    requires outputCount > 0
    ensures Budget(rows, outputCount, jobs) == rows * (jobs / outputCount) + Min(rows, jobs % outputCount)
  {
    if rows > 0 {
      BudgetPrefix(rows - 1, outputCount, jobs);
      assert rows * (jobs / outputCount) == (rows - 1) * (jobs / outputCount) + jobs / outputCount;
    }
  }

  /** The per-row budgets add up to the job limit. */
  lemma BudgetsSumToJobs(outputCount: nat, jobs: nat)
    requires outputCount > 0
    ensures Budget(outputCount, outputCount, jobs) == jobs
  {
    BudgetPrefix(outputCount, outputCount, jobs);
  }

  /** Several tasks per output: every row is cut into groups of whole chunks. */
  method SplitTasks(outputCount: nat, shardLen: nat, chunk: nat, jobs: nat) returns (tasks: seq<seq<Piece>>)
    requires 0 < outputCount < jobs && 0 < chunk <= shardLen <= USIZE_MAX
    ensures Flatten(tasks) == AllChunks(outputCount, shardLen, chunk) && |tasks| <= jobs
    ensures forall task :: task in tasks ==> Spans(task, 1, CeilDiv(CeilDiv(shardLen, chunk), jobs / outputCount) * chunk)
  {
    hide CeilDiv, Spans, AllChunks, Flatten;
    AtLeastOneJob(outputCount, jobs);
    tasks := [];
    NothingYet(shardLen, chunk);
    for row := 0 to outputCount
      invariant Flatten(tasks) == AllChunks(row, shardLen, chunk) && |tasks| <= Budget(row, outputCount, jobs)
      invariant forall task :: task in tasks ==> Spans(task, 1, CeilDiv(CeilDiv(shardLen, chunk), jobs / outputCount) * chunk)
    {
      var rowTasks := SplitRow(row, shardLen, chunk, RowJobs(row, outputCount, jobs));
      RowShare(rowTasks, shardLen, chunk, jobs / outputCount, RowJobs(row, outputCount, jobs));
      NextRow(row, shardLen, chunk);
      FlattenConcat(tasks, rowTasks);
      tasks := tasks + rowTasks;
    }
    BudgetsSumToJobs(outputCount, jobs);
  }

  lemma FlattenStart(tasks: seq<seq<Piece>>)
    ensures Flatten(tasks[..0]) == []
  {
  }

  /** Where a task stands in the visiting order. */
  lemma {:induction false} FlattenPrefix(tasks: seq<seq<Piece>>, t: nat)
    requires t < |tasks|
    ensures Flatten(tasks[..t + 1]) == Flatten(tasks[..t]) + tasks[t]
    ensures Flatten(tasks[..t + 1]) <= Flatten(tasks)
  {
    FlattenConcat(tasks[..t], [tasks[t]]);
    assert tasks[..t + 1] == tasks[..t] + [tasks[t]];
    FlattenAppend(tasks[..t], tasks[t]);
    FlattenConcat(tasks[..t + 1], tasks[t + 1..]);
    assert tasks == tasks[..t + 1] + tasks[t + 1..];
  }

  lemma {:induction false} FlattenConcat(a: seq<seq<Piece>>, b: seq<seq<Piece>>)
    ensures Flatten(a + b) == Flatten(a) + Flatten(b)
  {
    if b == [] {
      assert a + b == a;
    } else {
      var b' := b[..|b| - 1];
      FlattenConcat(a, b');
      assert (a + b)[..|a + b| - 1] == a + b';
      assert Flatten(a) + (Flatten(b') + b[|b| - 1]) == (Flatten(a) + Flatten(b')) + b[|b| - 1];
    }
  }

  method SplitRow(row: nat, shardLen: nat, chunk: nat, rowJobs: nat) returns (tasks: seq<seq<Piece>>)
    requires 0 < chunk <= shardLen <= USIZE_MAX && rowJobs > 0
    ensures Flatten(tasks) == RowChunks(row, 0, shardLen, chunk) && |tasks| <= rowJobs
    ensures forall task :: task in tasks ==> Spans(task, 1, CeilDiv(CeilDiv(shardLen, chunk), rowJobs) * chunk)
  {
    hide Spans, CeilDiv;
    GroupFits(shardLen, chunk, rowJobs);
    var chunkCount := CeilDiv(shardLen, chunk);
    var chunksPerJob := CeilDiv(chunkCount, rowJobs);
    var groupLen := Min(SaturatingMul(chunksPerJob, chunk), shardLen);
    tasks := CutIntoGroups(row, shardLen, chunk, groupLen, chunksPerJob, rowJobs);
  }

  method CutIntoGroups(row: nat, shardLen: nat, chunk: nat, groupLen: nat, ghost chunksPerJob: nat, ghost rowJobs: nat) returns (tasks: seq<seq<Piece>>)
    requires 0 < chunk && 0 < groupLen && (groupLen < shardLen ==> groupLen == chunksPerJob * chunk) && shardLen <= groupLen * rowJobs
    requires groupLen <= chunksPerJob * chunk
    ensures Flatten(tasks) == RowChunks(row, 0, shardLen, chunk) && |tasks| <= rowJobs
    ensures forall task :: task in tasks ==> Spans(task, 1, chunksPerJob * chunk)
  {
    hide RowChunks, Flatten, Advanced, Spans;
    AdvancedStart(groupLen, shardLen);
    tasks := [];
    FlattenEmpty();
    var from := 0;
    while from < shardLen
      invariant from <= shardLen && Advanced(|tasks|, groupLen, shardLen, from)
      invariant Flatten(tasks) + RowChunks(row, from, shardLen, chunk) == RowChunks(row, 0, shardLen, chunk)
      invariant forall task :: task in tasks ==> Spans(task, 1, chunksPerJob * chunk)
      decreases shardLen - from
    {
      var to := Min(from + groupLen, shardLen);
      var task := GroupChunks(row, from, to, chunk);
      GroupSpans(row, from, to, chunk, chunksPerJob * chunk);
      AdvancedStep(|tasks|, groupLen, shardLen, from);
      CutRow(row, from, to, chunksPerJob, shardLen, chunk);
      FlattenAppend(tasks, task);
      assert (Flatten(tasks) + task) + RowChunks(row, to, shardLen, chunk) == Flatten(tasks) + (task + RowChunks(row, to, shardLen, chunk));
      tasks := tasks + [task];
      from := to;
    }
    AdvancedFew(|tasks|, groupLen, shardLen, from, rowJobs);
    EmptyRange(row, shardLen, chunk);
  }

  lemma GroupSpans(row: nat, from: nat, to: nat, chunk: nat, columns: nat)
    requires chunk > 0 && to <= from + columns
    ensures Spans(RowChunks(row, from, to, chunk), 1, columns)
  {
    RowChunksInside(row, from, to, chunk);
  }

  lemma AtLeastOneJob(outputCount: nat, jobs: nat)
    requires 0 < outputCount < jobs
    ensures jobs / outputCount > 0
  {
  }

  lemma NothingYet(len: nat, chunk: nat)
    requires chunk > 0
    ensures Flatten([]) == AllChunks(0, len, chunk)
  {
  }

  lemma NextRow(row: nat, len: nat, chunk: nat)
    requires chunk > 0
    ensures AllChunks(row + 1, len, chunk) == AllChunks(row, len, chunk) + RowChunks(row, 0, len, chunk)
  {
  }

  /** A row with more jobs has smaller shares. */
  lemma RowShare(tasks: seq<seq<Piece>>, shardLen: nat, chunk: nat, least: nat, rowJobs: nat)
    requires chunk > 0 && 0 < least <= rowJobs
    requires forall task :: task in tasks ==> Spans(task, 1, CeilDiv(CeilDiv(shardLen, chunk), rowJobs) * chunk)
    ensures forall task :: task in tasks ==> Spans(task, 1, CeilDiv(CeilDiv(shardLen, chunk), least) * chunk)
  {
    SmallerPartsAreMore(CeilDiv(shardLen, chunk), least, rowJobs);
    MulMonotone(CeilDiv(CeilDiv(shardLen, chunk), rowJobs), CeilDiv(CeilDiv(shardLen, chunk), least), chunk);
  }

  /** `n` groups reach to column `at`, and the last one was not superfluous. */
  ghost predicate Advanced(n: nat, size: nat, len: nat, at: nat) {
    at == Min(n * size, len) && (n > 0 ==> (n - 1) * size < len)
  }

  lemma AdvancedStart(size: nat, len: nat)
    ensures Advanced(0, size, len, 0)
  {
  }

  lemma AdvancedStep(n: nat, size: nat, len: nat, at: nat)
    requires Advanced(n, size, len, at) && at < len
    ensures Advanced(n + 1, size, len, Min(at + size, len))
  {
    assert (n + 1) * size == n * size + size;
  }

  lemma AdvancedFew(n: nat, size: nat, len: nat, at: nat, limit: nat)
    requires Advanced(n, size, len, at) && len <= size * limit
    ensures n <= limit
  {
    FewGroups(n, size, len, limit);
  }

  lemma FlattenEmpty()
    ensures Flatten([]) == []
  {
  }

  lemma EmptyRange(row: nat, len: nat, chunk: nat)
    requires chunk > 0
    ensures RowChunks(row, len, len, chunk) == []
  {
  }

  lemma CutRow(row: nat, from: nat, to: nat, n: nat, len: nat, chunk: nat)
    requires chunk > 0 && from <= to <= len && (to < len ==> to == from + n * chunk)
    ensures RowChunks(row, from, to, chunk) + RowChunks(row, to, len, chunk) == RowChunks(row, from, len, chunk)
  {
    if to < len {
      RowChunksSplit(row, from, n, to, len, chunk);
    } else {
      EmptyRange(row, len, chunk);
    }
  }

  /** Saturation never cuts a group: the groups are whole chunks or the whole row, and few enough. */
  lemma GroupFits(shardLen: nat, chunk: nat, rowJobs: nat)
    requires 0 < chunk <= shardLen <= USIZE_MAX && rowJobs > 0
    ensures var perJob := CeilDiv(CeilDiv(shardLen, chunk), rowJobs);
      var groupLen := Min(SaturatingMul(perJob, chunk), shardLen);
      && 0 < groupLen && (groupLen < shardLen ==> groupLen == perJob * chunk)
      && shardLen <= groupLen * rowJobs
  {
    var count := CeilDiv(shardLen, chunk);
    var perJob := CeilDiv(count, rowJobs);
    var groupLen := Min(SaturatingMul(perJob, chunk), shardLen);
    assert count > 0;
    assert perJob > 0;
    assert perJob * chunk >= chunk by { MulMonotone(1, perJob, chunk); }
    if groupLen == shardLen {
      assert shardLen * rowJobs >= shardLen * 1 by { MulMonotone(1, rowJobs, shardLen); }
    } else {
      assert count * chunk <= (perJob * rowJobs) * chunk by { MulMonotone(count, perJob * rowJobs, chunk); }
      MulSwap(perJob, rowJobs, chunk);
    }
  }

  lemma MulSwap(a: nat, b: nat, c: nat)
    ensures (a * b) * c == (a * c) * b
  {
  }
}
