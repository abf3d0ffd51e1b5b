/** The parallel loop at the level of its tasks: each works through its own chunks in order, one input
    after the other, and the tasks interleave freely. */
module ParallelTasks {
  import opened Vectors
  import opened Scheduling
  import opened ParallelCoding

  /** Where the chunks of a task begin in the list of all chunks. */
  function Offset(tasks: seq<seq<Piece>>, t: nat): nat
    requires t <= |tasks|
  {
    |Flatten(tasks[..t])|
  }

  /** The chunks of a task are consecutive in that list. */
  lemma OffsetBounds(tasks: seq<seq<Piece>>, t: nat)
    requires t < |tasks|
    ensures Offset(tasks, t + 1) == Offset(tasks, t) + |tasks[t]| <= |Flatten(tasks)|
  {
    FlattenPrefix(tasks, t);
  }

  /** The first unfinished chunk between two positions, or the second position. */
  function Cursor(progress: seq<nat>, lo: nat, hi: nat, inputs: nat): (j: nat)
    requires lo <= hi <= |progress|
    ensures lo <= j <= hi && (j < hi ==> progress[j] < inputs)
    ensures forall i :: lo <= i < j ==> progress[i] >= inputs
    decreases hi - lo
  {
    if lo == hi || progress[lo] < inputs then lo else Cursor(progress, lo + 1, hi, inputs)
  }

  /** Where worker `t` stands; at the end of its chunks when it has nothing left to do. */
  function Position(tasks: seq<seq<Piece>>, progress: seq<nat>, inputs: nat, t: nat): (j: nat)
    requires |progress| == |Flatten(tasks)| && t < |tasks|
    ensures Offset(tasks, t) <= j <= Offset(tasks, t + 1) <= |progress|
    ensures j < Offset(tasks, t + 1) ==> progress[j] < inputs
    ensures forall i :: Offset(tasks, t) <= i < j ==> progress[i] >= inputs
  {
    OffsetBounds(tasks, t);
    Cursor(progress, Offset(tasks, t), Offset(tasks, t + 1), inputs)
  }

  /** Worker `t` applies the next input to its current chunk. */
  ghost function WorkerStep<E(!new)>(job: Job<E>, tasks: seq<seq<Piece>>, s: State<E>, t: nat): (u: State<E>)
    requires Fits(job, Flatten(tasks), s) && t < |tasks|
    ensures Fits(job, Flatten(tasks), u)
  {
    var j := Position(tasks, s.progress, |job.inputs|, t);
    if j < Offset(tasks, t + 1) then Step(job, Flatten(tasks), s, j) else s
  }

  lemma StepProgress<E(!new)>(job: Job<E>, tasks: seq<seq<Piece>>, s: State<E>, t: nat)
    requires Fits(job, Flatten(tasks), s) && t < |tasks|
    ensures |s.progress| == |Flatten(tasks)| && forall i :: 0 <= i < |s.progress| ==> s.progress[i] <= |job.inputs|
    ensures var j := Position(tasks, s.progress, |job.inputs|, t);
      WorkerStep(job, tasks, s, t).progress
      == if j < Offset(tasks, t + 1) then s.progress[j := s.progress[j] + 1] else s.progress
  {
    hide Flatten, Offset, Cursor;
  }

  /** The workers in the order in which they happen to act. */
  ghost function WorkerRun<E(!new)>(job: Job<E>, tasks: seq<seq<Piece>>, s: State<E>, schedule: seq<nat>): (u: State<E>)
    requires Fits(job, Flatten(tasks), s) && Within(schedule, |tasks|)
    ensures Fits(job, Flatten(tasks), u)
    decreases |schedule|
  {
    if schedule == [] then s
    else WorkerStep(job, tasks, WorkerRun(job, tasks, s, schedule[..|schedule| - 1]), schedule[|schedule| - 1])
  }

  /** A run of the workers is a run of slice operations. */
  lemma {:induction false} WorkersAreSteps<E(!new)>(job: Job<E>, tasks: seq<seq<Piece>>, s: State<E>, schedule: seq<nat>)
    returns (steps: seq<nat>)
    requires Fits(job, Flatten(tasks), s) && Within(schedule, |tasks|)
    ensures Within(steps, |s.progress|)
    ensures Run(job, Flatten(tasks), s, steps) == WorkerRun(job, tasks, s, schedule)
    decreases |schedule|
  {
    steps := [];
    if schedule != [] {
      var before, t := schedule[..|schedule| - 1], schedule[|schedule| - 1];
      steps := WorkersAreSteps(job, tasks, s, before);
      var u := WorkerRun(job, tasks, s, before);
      var j := Position(tasks, u.progress, |job.inputs|, t);
      if j < Offset(tasks, t + 1) {
        RunAppend(job, Flatten(tasks), s, steps, j);
        steps := steps + [j];
      }
    }
  }

  lemma RunAppend<E(!new)>(job: Job<E>, pieces: seq<Piece>, s: State<E>, steps: seq<nat>, j: nat)
    requires Fits(job, pieces, s) && Within(steps, |pieces|) && j < |pieces|
    ensures Within(steps + [j], |pieces|)
    ensures Run(job, pieces, s, steps + [j]) == Step(job, pieces, Run(job, pieces, s, steps), j)
  {
    assert (steps + [j])[..|steps|] == steps;
  }

  /** Chunks behind a worker are finished and chunks ahead of it are untouched: a worker never has two
      chunks open at once. */
  ghost predicate InOrder(tasks: seq<seq<Piece>>, progress: seq<nat>, inputs: nat)
    requires |progress| == |Flatten(tasks)|
  {
    forall t, i :: 0 <= t < |tasks| && Position(tasks, progress, inputs, t) < i < Offset(tasks, t + 1) && i < |progress|
      ==> progress[i] == 0
  }

  lemma {:induction false} WorkersKeepOrder<E(!new)>(job: Job<E>, tasks: seq<seq<Piece>>, s: State<E>, schedule: seq<nat>)
    requires Fits(job, Flatten(tasks), s) && Within(schedule, |tasks|) && forall j :: 0 <= j < |s.progress| ==> s.progress[j] == 0
    ensures InOrder(tasks, WorkerRun(job, tasks, s, schedule).progress, |job.inputs|)
    decreases |schedule|
  {
    hide Fits, InOrder, Position, WorkerStep, Flatten;
    FitsProgress(job, Flatten(tasks), s);
    if schedule == [] {
      StartsInOrder(tasks, s.progress, |job.inputs|);
    } else {
      var before, t := schedule[..|schedule| - 1], schedule[|schedule| - 1];
      WorkersKeepOrder(job, tasks, s, before);
      var u := WorkerRun(job, tasks, s, before);
      FitsProgress(job, Flatten(tasks), u);
      StepKeepsOrder(tasks, u.progress, |job.inputs|, t);
      StepProgress(job, tasks, u, t);
    }
  }

  lemma FitsProgress<E(!new)>(job: Job<E>, pieces: seq<Piece>, s: State<E>)
    requires Fits(job, pieces, s)
    ensures |s.progress| == |pieces| && forall i :: 0 <= i < |pieces| ==> s.progress[i] <= |job.inputs|
  {
  }

  lemma StartsInOrder(tasks: seq<seq<Piece>>, progress: seq<nat>, inputs: nat)
    requires |progress| == |Flatten(tasks)| && forall j :: 0 <= j < |progress| ==> progress[j] == 0
    ensures InOrder(tasks, progress, inputs)
  {
  }

  lemma StepKeepsOrder(tasks: seq<seq<Piece>>, progress: seq<nat>, inputs: nat, t: nat)
    requires |progress| == |Flatten(tasks)| && t < |tasks| && InOrder(tasks, progress, inputs)
    ensures var j := Position(tasks, progress, inputs, t);
      j < Offset(tasks, t + 1) ==> InOrder(tasks, progress[j := progress[j] + 1], inputs)
  {
    hide Flatten, Offset, Cursor, Position;
    var j := Position(tasks, progress, inputs, t);
    if j < Offset(tasks, t + 1) {
      var next := progress[j := progress[j] + 1];
      forall r, i | 0 <= r < |tasks| && Position(tasks, next, inputs, r) < i < Offset(tasks, r + 1) && i < |next|
        ensures next[i] == 0
      {
        PositionAdvances(tasks, progress, inputs, t, r);
      }
    }
  }

  /** A step moves no position back, and the chunk worked on is not ahead of any position. */
  lemma PositionAdvances(tasks: seq<seq<Piece>>, progress: seq<nat>, inputs: nat, t: nat, r: nat)
    requires |progress| == |Flatten(tasks)| && t < |tasks| && r < |tasks|
    requires Position(tasks, progress, inputs, t) < Offset(tasks, t + 1)
    ensures var j := Position(tasks, progress, inputs, t);
      && Position(tasks, progress, inputs, r) <= Position(tasks, progress[j := progress[j] + 1], inputs, r)
      && !(Position(tasks, progress[j := progress[j] + 1], inputs, r) < j < Offset(tasks, r + 1))
  {
    hide Flatten, Offset, Cursor;
    var j := Position(tasks, progress, inputs, t);
    var next := progress[j := progress[j] + 1];
    if r != t {
      OffsetsApart(tasks, r, t);
      OffsetBounds(tasks, r);
      SameCursor(progress, next, Offset(tasks, r), Offset(tasks, r + 1), inputs);
    }
  }

  lemma {:induction false} SameCursor(progress: seq<nat>, next: seq<nat>, lo: nat, hi: nat, inputs: nat)
    requires lo <= hi <= |progress| == |next| && forall i :: lo <= i < hi ==> progress[i] == next[i]
    ensures Cursor(progress, lo, hi, inputs) == Cursor(next, lo, hi, inputs)
    decreases hi - lo
  {
    if lo < hi {
      SameCursor(progress, next, lo + 1, hi, inputs);
    }
  }

  /** Different tasks own different chunks. */
  lemma OffsetsApart(tasks: seq<seq<Piece>>, r: nat, t: nat)
    requires r < |tasks| && t < |tasks| && r != t
    ensures Offset(tasks, r + 1) <= Offset(tasks, t) || Offset(tasks, t + 1) <= Offset(tasks, r)
  {
    if r < t {
      OffsetGrows(tasks, r + 1, t);
    } else {
      OffsetGrows(tasks, t + 1, r);
    }
  }

  lemma {:induction false} OffsetGrows(tasks: seq<seq<Piece>>, r: nat, t: nat)
    requires r <= t <= |tasks|
    ensures Offset(tasks, r) <= Offset(tasks, t)
    decreases t - r
  {
    if r < t {
      OffsetBounds(tasks, r);
      OffsetGrows(tasks, r + 1, t);
    }
  }

  // ----- progress

  /** As long as slice operations are outstanding, some chunk has one. */
  lemma {:induction false} OutstandingChunk(progress: seq<nat>, inputs: nat)
    requires forall j :: 0 <= j < |progress| ==> progress[j] <= inputs
    ensures Remaining(progress, inputs) > 0 <==> exists j :: 0 <= j < |progress| && progress[j] < inputs
  {
    if progress != [] {
      var n := |progress| - 1;
      OutstandingChunk(progress[..n], inputs);
      assert forall j :: 0 <= j < n ==> progress[..n][j] == progress[j];
      assert progress[n] <= inputs;
    }
  }

  /** Every chunk belongs to a task. */
  lemma {:induction false} OwnerOf(tasks: seq<seq<Piece>>, n: nat, j: nat) returns (t: nat)
    requires n <= |tasks| && j < Offset(tasks, n)
    ensures t < n && Offset(tasks, t) <= j < Offset(tasks, t + 1)
  {
    if j >= Offset(tasks, n - 1) {
      t := n - 1;
    } else {
      t := OwnerOf(tasks, n - 1, j);
    }
  }

  lemma WholeOffset(tasks: seq<seq<Piece>>)
    ensures Offset(tasks, |tasks|) == |Flatten(tasks)|
  {
    assert tasks[..|tasks|] == tasks;
  }

  /** Until everything is done some worker can act, and whenever one acts, one operation less is outstanding. */
  lemma SomeWorkerActs<E(!new)>(job: Job<E>, tasks: seq<seq<Piece>>, s: State<E>) returns (t: nat)
    requires Fits(job, Flatten(tasks), s) && Remaining(s.progress, |job.inputs|) > 0
    ensures t < |tasks|
    ensures Remaining(WorkerStep(job, tasks, s, t).progress, |job.inputs|) == Remaining(s.progress, |job.inputs|) - 1
  {
    hide Fits, WorkerStep, Flatten, Offset;
    FitsProgress(job, Flatten(tasks), s);
    OutstandingChunk(s.progress, |job.inputs|);
    var j :| 0 <= j < |s.progress| && s.progress[j] < |job.inputs|;
    WholeOffset(tasks);
    t := OwnerOf(tasks, |tasks|, j);
    StepProgress(job, tasks, s, t);
    StepUsesOne(s.progress, |job.inputs|, Position(tasks, s.progress, |job.inputs|, t));
  }

  /** However the workers interleave, once nothing is outstanding the outputs are the matrix product,
      whatever they held before. */
  lemma AnyTaskInterleaving<E(!new)>(job: Job<E>, tasks: seq<seq<Piece>>, chunk: nat, s: State<E>, schedule: seq<nat>)
    requires chunk > 0 && Flatten(tasks) == AllChunks(|job.rows|, job.len, chunk)
    requires Fits(job, Flatten(tasks), s) && Within(schedule, |tasks|)
    requires forall j :: 0 <= j < |s.progress| ==> s.progress[j] == 0
    requires Remaining(WorkerRun(job, tasks, s, schedule).progress, |job.inputs|) == 0
    ensures WorkerRun(job, tasks, s, schedule).outputs == MatMul(job.field, job.rows, job.inputs, job.len)
  {
    var steps := WorkersAreSteps(job, tasks, s, schedule);
    OutstandingChunk(WorkerRun(job, tasks, s, schedule).progress, |job.inputs|);
    AnyInterleaving(job, chunk, s, steps);
  }
}
