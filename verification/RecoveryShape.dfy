/** The erasure layout of a recovery: validated shard lengths, survivors and erasures. */
module RecoveryShapes {
  import opened Outcomes
  import opened Codecs
  import opened Encoding
  import opened Indices

  /** What a shard container reports: no length when the shard is missing. */
  type ShardLength = Option<nat>

  const INLINE_INPUTS: nat := 32

  datatype ScanState = ScanState(shardLen: nat, numberPresent: nat)

  datatype Shape = Shape(shardLen: nat, numberPresent: nat, validIndices: seq<nat>, invalidIndices: seq<nat>)

  // ----- the plain one-pass scan

  function Observed(s: ScanState, length: ShardLength): Result<ScanState, Error> {
    if length.None? then Ok(s)
    else if length.value == 0 then Err(EmptyShard)
    else if s.shardLen != 0 && length.value != s.shardLen then Err(IncorrectShardSize)
    else Ok(ScanState(length.value, s.numberPresent + 1))
  }

  function Scan(lengths: seq<ShardLength>, n: nat): (r: Result<ScanState, Error>)
    requires n <= |lengths|
  {
    if n == 0 then Ok(ScanState(0, 0))
    else
      var before := Scan(lengths, n - 1);
      if before.Err? then before else Observed(before.value, lengths[n - 1])
  }

  /** The present shards below `n`, ascending. */
  function Present(lengths: seq<ShardLength>, n: nat): (p: seq<nat>)
    requires n <= |lengths|
    ensures Ascending(p) && Below(p, n)
  {
    if n == 0 then [] else Present(lengths, n - 1) + (if lengths[n - 1].Some? then [n - 1] else [])
  }

  /** The missing shards below `n`, ascending. */
  function Missing(lengths: seq<ShardLength>, n: nat): (m: seq<nat>)
    requires n <= |lengths|
    ensures Ascending(m) && Below(m, n)
  {
    if n == 0 then [] else Missing(lengths, n - 1) + (if lengths[n - 1].None? then [n - 1] else [])
  }

  lemma {:induction false} ListMember(lengths: seq<ShardLength>, n: nat, i: nat)
    requires n <= |lengths|
    ensures i in Present(lengths, n) <==> i < n && lengths[i].Some?
    ensures i in Missing(lengths, n) <==> i < n && lengths[i].None?
  {
    if n > 0 {
      ListMember(lengths, n - 1, i);
    }
  }

  /** The two lists share out the shards. */
  lemma ListMembers(lengths: seq<ShardLength>, n: nat)
    requires n <= |lengths|
    ensures forall i {:trigger i in Present(lengths, n)} :: i in Present(lengths, n) <==> 0 <= i < n && lengths[i].Some?
    ensures forall i {:trigger i in Missing(lengths, n)} :: i in Missing(lengths, n) <==> 0 <= i < n && lengths[i].None?
  {
    hide Present, Missing;
    forall i | 0 <= i
      ensures i in Present(lengths, n) <==> 0 <= i < n && lengths[i].Some?
      ensures i in Missing(lengths, n) <==> 0 <= i < n && lengths[i].None?
    {
      ListMember(lengths, n, i);
    }
  }

  /** Every present shard has the same nonzero length. */
  ghost predicate Uniform(lengths: seq<ShardLength>, n: nat)
    requires n <= |lengths|
  {
    && (forall i :: 0 <= i < n && lengths[i].Some? ==> lengths[i].value > 0)
    && (forall i, j :: 0 <= i < j < n && lengths[i].Some? && lengths[j].Some? ==> lengths[i].value == lengths[j].value)
  }

  /** What a successful scan knows. */
  lemma {:induction false} ScanKnows(lengths: seq<ShardLength>, n: nat)
    requires n <= |lengths| && Scan(lengths, n).Ok?
    ensures Scan(lengths, n).value.numberPresent == |Present(lengths, n)|
    ensures forall i :: 0 <= i < n && lengths[i].Some? ==> lengths[i].value == Scan(lengths, n).value.shardLen > 0
    ensures Scan(lengths, n).value.shardLen > 0 ==> exists i :: 0 <= i < n && lengths[i].Some?
  {
    if n > 0 {
      ScanKnows(lengths, n - 1);
    }
  }

  /** The scan accepts exactly the uniform layouts. */
  lemma {:induction false} ScanMeaning(lengths: seq<ShardLength>, n: nat)
    requires n <= |lengths|
    ensures Scan(lengths, n).Ok? <==> Uniform(lengths, n)
  {
    if n > 0 {
      ScanMeaning(lengths, n - 1);
      if Scan(lengths, n - 1).Ok? {
        ScanKnows(lengths, n - 1);
        var len := Scan(lengths, n - 1).value.shardLen;
        if len > 0 {
          var i :| 0 <= i < n - 1 && lengths[i].Some?;
          assert lengths[i].value == len;
        }
      }
    }
  }

  /** The first offending shard decides the error. */
  lemma {:induction false} ScanStops(lengths: seq<ShardLength>, n: nat, upto: nat)
    requires n <= upto <= |lengths| && Scan(lengths, n).Err?
    ensures Scan(lengths, upto) == Scan(lengths, n)
  {
    if upto > n {
      ScanStops(lengths, n, upto - 1);
    }
  }

  /** The shard a failed scan blames: everything before it was uniform; it is empty, or not as long as an earlier one. */
  lemma {:induction false} ScanBlames(lengths: seq<ShardLength>, n: nat) returns (i: nat)
    requires n <= |lengths| && Scan(lengths, n).Err?
    ensures i < n && lengths[i].Some? && Uniform(lengths, i)
    ensures Scan(lengths, n).error == if lengths[i].value == 0 then EmptyShard else IncorrectShardSize
    ensures lengths[i].value == 0 || exists j :: 0 <= j < i && lengths[j].Some? && lengths[j].value != lengths[i].value
  {
    if Scan(lengths, n - 1).Err? {
      i := ScanBlames(lengths, n - 1);
    } else {
      i := n - 1;
      ScanMeaning(lengths, i);
      ScanKnows(lengths, i);
    }
  }

  /** The shape of a validated layout, or the scan's error, or too few survivors. */
  function ShapeOf(k: nat, lengths: seq<ShardLength>): (r: Result<Shape, Error>) {
    var n := |lengths|;
    var scan := Scan(lengths, n);
    if scan.Err? then Err(scan.error)
    else if |Present(lengths, n)| < k then Err(TooFewShardsPresent)
    else Ok(Shape(scan.value.shardLen, scan.value.numberPresent, Present(lengths, n)[..k], Missing(lengths, n)))
  }

  // ----- the stateful scan

  /** The lengths iterator: it only moves forward, so nothing is read twice. */
  class LengthReader {
    const lengths: seq<ShardLength>
    var next: nat

    ghost predicate Valid()
      reads this
    {
      next <= |lengths|
    }

    constructor (lengths: seq<ShardLength>)
      ensures Valid() && this.lengths == lengths && next == 0
    {
      this.lengths := lengths;
      next := 0;
    }

    method Next() returns (index: nat, length: ShardLength)
      requires Valid() && next < |lengths|
      modifies `next
      ensures Valid() && next == old(next) + 1 && index == old(next) && length == lengths[index]
    {
      index, length := next, lengths[next];
      next := next + 1;
    }
  }

  class ClassicShardLengths {
    var shardLen: nat
    var numberPresent: nat

    ghost function State(): ScanState
      reads this
    {
      ScanState(shardLen, numberPresent)
    }

    constructor ()
      ensures State() == ScanState(0, 0)
    {
      shardLen, numberPresent := 0, 0;
    }

    method Observe(length: ShardLength) returns (r: Result<bool, Error>)
      modifies this
      ensures r.Err? <==> Observed(old(State()), length).Err?
      ensures r.Err? ==> r.error == Observed(old(State()), length).error && State() == old(State())
      ensures r.Ok? ==> Observed(old(State()), length) == Ok(State()) && (r.value <==> length.Some?)
    {
      if length.None? {
        return Ok(false);
      }
      if length.value == 0 {
        return Err(EmptyShard);
      }
      if shardLen != 0 && length.value != shardLen {
        return Err(IncorrectShardSize);
      }
      shardLen := length.value;
      numberPresent := numberPresent + 1;
      r := Ok(true);
    }

    /** Reads up to and including the first erasure. */
    method ScanPresentPrefix(reader: LengthReader) returns (r: Result<Option<nat>, Error>)
      requires reader.Valid() && reader.next == 0 && State() == ScanState(0, 0)
      modifies this, reader
      ensures reader.Valid()
      ensures r.Err? ==> Scan(reader.lengths, reader.next) == Err(r.error)
      ensures r.Ok? ==> Scan(reader.lengths, reader.next) == Ok(State())
      ensures r.Ok? && r.value.None? ==> reader.next == |reader.lengths| && Missing(reader.lengths, reader.next) == []
      ensures r.Ok? && r.value.Some? ==>
        reader.next == r.value.value + 1 && Missing(reader.lengths, reader.next) == [r.value.value]
    {
      hide Scan, Missing, Present, Observed;
      ScanStart(reader.lengths, []);
      ListsEmpty(reader.lengths);
      while reader.next < |reader.lengths|
        invariant reader.Valid() && Scan(reader.lengths, reader.next) == Ok(State())
        invariant Missing(reader.lengths, reader.next) == []
        decreases |reader.lengths| - reader.next
      {
        ScanStep(reader.lengths, reader.next);
        ListsStep(reader.lengths, reader.next);
        var index, length := reader.Next();
        var present := Observe(length);
        if present.Err? {
          return Err(present.error);
        }
        if !present.value {
          return Ok(Some(index));
        }
      }
      r := Ok(None);
    }
  }

  // ----- the two-phase survivor fill

  /** The first `m` elements, or all of them. */
  function FirstOf(s: seq<nat>, m: nat): seq<nat> {
    if |s| < m then s else s[..m]
  }

  function Range(n: nat): (r: seq<nat>)
    ensures |r| == n && forall i :: 0 <= i < n ==> r[i] == i
  {
    seq(n, i requires 0 <= i => i)
  }

  lemma RangeStep(n: nat)
    ensures Range(n + 1) == Range(n) + [n]
  {
  }

  /** A prefix without erasures is its own survivor list. */
  lemma {:induction false} PresentPrefix(lengths: seq<ShardLength>, n: nat)
    requires n <= |lengths| && Missing(lengths, n) == []
    ensures Present(lengths, n) == Range(n)
  {
    hide *;
    if n == 0 {
      ListsEmpty(lengths);
    } else {
      ListsStep(lengths, n - 1);
      PresentPrefix(lengths, n - 1);
      RangeStep(n - 1);
    }
  }

  /** A capped prefix is complete when the cap is not below `k`, and otherwise a shorter prefix. */
  lemma FirstOfPrefix(s: seq<nat>, m: nat, k: nat)
    requires m <= k <= |s|
    ensures FirstOf(s, m) <= s && |FirstOf(s, m)| <= k
    ensures |FirstOf(s, m)| == k ==> FirstOf(s, m) == s[..k]
  {
  }

  lemma FirstOfRange(n: nat, m: nat)
    ensures FirstOf(Range(n), m) == Range(if n < m then n else m)
  {
  }

  lemma FirstOfStep(s: seq<nat>, x: nat, m: nat)
    ensures FirstOf(s + [x], m) == if |FirstOf(s, m)| < m then FirstOf(s, m) + [x] else FirstOf(s, m)
    ensures |FirstOf(s, m)| <= m && |FirstOf(s, m)| <= |s|
  {
  }

  lemma ListsEmpty(lengths: seq<ShardLength>)
    ensures Present(lengths, 0) == [] && Missing(lengths, 0) == [] && Range(0) == []
  {
  }

  lemma ListsStep(lengths: seq<ShardLength>, n: nat)
    requires n < |lengths|
    ensures Present(lengths, n + 1) == if lengths[n].Some? then Present(lengths, n) + [n] else Present(lengths, n)
    ensures Missing(lengths, n + 1) == if lengths[n].None? then Missing(lengths, n) + [n] else Missing(lengths, n)
    ensures Missing(lengths, n + 1) == [] ==> lengths[n].Some? && Missing(lengths, n) == []
  {
  }

  lemma {:induction false} PresentMonotone(lengths: seq<ShardLength>, n: nat, upto: nat)
    requires n <= upto <= |lengths|
    ensures Present(lengths, n) <= Present(lengths, upto)
  {
    if upto > n {
      PresentMonotone(lengths, n, upto - 1);
    }
  }

  /** Reads the lengths after the first erasure and completes the shape. */
  method FillShapeFromSuffix(k: nat, reader: LengthReader, state: ClassicShardLengths, firstMissing: nat) returns (r: Result<Shape, Error>)
    requires reader.Valid() && reader.next == firstMissing + 1
    requires Missing(reader.lengths, reader.next) == [firstMissing] && Scan(reader.lengths, reader.next) == Ok(state.State())
    modifies reader, state
    ensures r == ShapeOf(k, reader.lengths)
    ensures r.Ok? ==> reader.next == |reader.lengths|
  {
    hide Uniform, Present, Missing, FirstOf, Ascending, Below, Scan, Observed, ShapeOf;
    ghost var lengths := reader.lengths;
    var inlineInputs := if k < INLINE_INPUTS then k else INLINE_INPUTS;
    var valid := Range(if firstMissing < inlineInputs then firstMissing else inlineInputs);
    var invalid := [firstMissing];
    FirstErasure(lengths, firstMissing);
    FirstOfRange(firstMissing, inlineInputs);
    while reader.next < |reader.lengths|
      invariant reader.Valid() && Scan(lengths, reader.next) == Ok(state.State())
      invariant invalid == Missing(lengths, reader.next) && valid == FirstOf(Present(lengths, reader.next), inlineInputs)
      decreases |reader.lengths| - reader.next
    {
      ScanStep(lengths, reader.next);
      ListsStep(lengths, reader.next);
      FirstOfStep(Present(lengths, reader.next), reader.next, inlineInputs);
      var index, length := reader.Next();
      var present := state.Observe(length);
      if present.Err? {
        ScanStops(lengths, reader.next, |lengths|);
        ShapeFails(k, lengths);
        return Err(present.error);
      }
      if present.value {
        if |valid| < inlineInputs {
          valid := valid + [index];
        }
      } else {
        invalid := invalid + [index];
      }
    }
    ShapeSucceeds(k, lengths);
    if state.numberPresent < k {
      return Err(TooFewShardsPresent);
    }
    FirstOfPrefix(Present(lengths, |lengths|), inlineInputs, k);
    if |valid| < k {
      valid := CompleteSurvivors(lengths, k, valid, invalid);
    }
    r := Ok(Shape(state.shardLen, state.numberPresent, valid, invalid));
  }

  /** The lists at the first erasure. */
  lemma FirstErasure(lengths: seq<ShardLength>, firstMissing: nat)
    requires firstMissing < |lengths| && Missing(lengths, firstMissing + 1) == [firstMissing]
    ensures lengths[firstMissing].None? && Present(lengths, firstMissing + 1) == Range(firstMissing)
  {
    hide *;
    ListMember(lengths, firstMissing + 1, firstMissing);
    assert firstMissing in Missing(lengths, firstMissing + 1);
    ListsStep(lengths, firstMissing);
    PresentPrefix(lengths, firstMissing);
  }

  lemma ShapeFails(k: nat, lengths: seq<ShardLength>)
    requires Scan(lengths, |lengths|).Err?
    ensures ShapeOf(k, lengths) == Err(Scan(lengths, |lengths|).error)
  {
    hide Scan;
  }

  lemma ShapeSucceeds(k: nat, lengths: seq<ShardLength>)
    requires Scan(lengths, |lengths|).Ok?
    ensures var state, present := Scan(lengths, |lengths|).value, Present(lengths, |lengths|);
      && state.numberPresent == |present|
      && ShapeOf(k, lengths)
         == if |present| < k then Err(TooFewShardsPresent)
            else Ok(Shape(state.shardLen, state.numberPresent, present[..k], Missing(lengths, |lengths|)))
  {
    hide Scan, Present, Missing;
    ScanKnows(lengths, |lengths|);
  }

  /** Completes a survivor prefix from the erasure list alone. */
  method CompleteSurvivors(ghost lengths: seq<ShardLength>, k: nat, partial: seq<nat>, invalid: seq<nat>) returns (valid: seq<nat>)
    requires invalid == Missing(lengths, |lengths|) && partial <= Present(lengths, |lengths|)
    requires |partial| < k <= |Present(lengths, |lengths|)|
    ensures valid == Present(lengths, |lengths|)[..k]
  {
    hide *;
    ghost var all := Present(lengths, |lengths|);
    valid := partial;
    var index: nat := if |partial| == 0 then 0 else partial[|partial| - 1] + 1;
    var at: nat := PartitionPoint(invalid, index);
    SurvivorsBelow(lengths, |partial|, index);
    PointReached(invalid, index);
    while |valid| < k
      invariant index <= |lengths| && valid == Present(lengths, index) && valid <= all && |valid| <= k
      invariant at <= |invalid| && Reached(invalid, index, at)
      decreases |lengths| - index
    {
      ErasureAt(lengths, index, at);
      ReachedStep(invalid, index, at);
      if at < |invalid| && invalid[at] == index {
        at := at + 1;
      } else {
        valid := valid + [index];
      }
      ListsStep(lengths, index);
      PresentMonotone(lengths, index + 1, |lengths|);
      index := index + 1;
    }
  }

  lemma PointReached(s: seq<nat>, bound: nat)
    requires Ascending(s)
    ensures Reached(s, bound, PartitionPoint(s, bound))
  {
  }

  /** The erasure list, walked in step, tells whether the next shard is missing. */
  lemma ErasureAt(lengths: seq<ShardLength>, index: nat, at: nat)
    requires index < |lengths| && at <= |Missing(lengths, |lengths|)| && Reached(Missing(lengths, |lengths|), index, at)
    ensures (at < |Missing(lengths, |lengths|)| && Missing(lengths, |lengths|)[at] == index) <==> lengths[index].None?
  {
    hide Missing, Present;
    var missing := Missing(lengths, |lengths|);
    ListMember(lengths, |lengths|, index);
    if index in missing {
      var i :| 0 <= i < |missing| && missing[i] == index;
      assert i >= at;
      var first, last := missing[at], missing[i];
      assert i > at ==> first < last;
    }
  }

  /** The first `m` survivors are those below the one after the last of them. */
  lemma SurvivorsBelow(lengths: seq<ShardLength>, m: nat, index: nat)
    requires m <= |Present(lengths, |lengths|)|
    requires index == if m == 0 then 0 else Present(lengths, |lengths|)[m - 1] + 1
    ensures index <= |lengths| && Present(lengths, index) == Present(lengths, |lengths|)[..m]
  {
    hide Present, Missing;
    var all := Present(lengths, |lengths|);
    ListMembers(lengths, index) by {
      if m > 0 {
        ListMembers(lengths, |lengths|);
        assert all[m - 1] in all;
      }
    }
    ListMembers(lengths, |lengths|);
    if m > 0 {
      assert all[m - 1] in all;
    }
    var p, q := Present(lengths, index), all[..m];
    forall x ensures x in p <==> x in q {
      if x in p {
        assert x in all;
        var i :| 0 <= i < |all| && all[i] == x;
        assert i < m;
        assert q[i] == x;
      }
      if x in q {
        assert x in all;
      }
    }
    AscendingUnique(p, q);
  }

  function CountError(total: nat, given: nat): (e: Option<Error>)
    ensures e.None? <==> given == total
  {
    CheckCount(given, total, TooFewShards, TooManyShards)
  }

  /** An all-present layout needs no index lists. */
  function AllPresentShape(lengths: seq<ShardLength>): Result<Shape, Error> {
    var scan := Scan(lengths, |lengths|);
    if scan.Err? then Err(scan.error) else Ok(Shape(scan.value.shardLen, scan.value.numberPresent, [], []))
  }

  function PreparedShape(k: nat, lengths: seq<ShardLength>): Result<Shape, Error> {
    if Missing(lengths, |lengths|) == [] then AllPresentShape(lengths) else ShapeOf(k, lengths)
  }

  /** The validated shape of a shard list. */
  method ClassicReconstructShape(total: nat, k: nat, lengths: seq<ShardLength>) returns (r: Result<Shape, Error>)
    ensures CountError(total, |lengths|).Some? ==> r == Err(CountError(total, |lengths|).value)
    ensures CountError(total, |lengths|).None? ==>
      r == PreparedShape(k, lengths)
  {
    var count := CountError(total, |lengths|);
    if count.Some? {
      return Err(count.value);
    }
    var reader := new LengthReader(lengths);
    var state := new ClassicShardLengths();
    var prefix := state.ScanPresentPrefix(reader);
    if prefix.Err? {
      ScanStops(lengths, reader.next, |lengths|);
      return Err(prefix.error);
    }
    ListMembers(lengths, |lengths|);
    ListMembers(lengths, reader.next);
    if prefix.value.Some? {
      assert prefix.value.value in Missing(lengths, |lengths|) by {
        assert prefix.value.value in Missing(lengths, reader.next);
      }
      r := FillShapeFromSuffix(k, reader, state, prefix.value.value);
    } else {
      r := Ok(Shape(state.shardLen, state.numberPresent, [], []));
    }
  }

  // ----- what the survivors depend on

  /** The survivors are the first `k` numbers that are not erasures, so erasures behind the last
      survivor do not matter. */
  lemma SurvivorsFromErasures(lengths: seq<ShardLength>, k: nat, valid: seq<nat>, erasures: seq<nat>)
    requires 0 < k <= |Present(lengths, |lengths|)| && |valid| == k && Ascending(valid)
    requires forall i: nat :: i <= valid[k - 1] ==> ((i in valid) <==> (i !in erasures))
    requires var last := Present(lengths, |lengths|)[k - 1];
      forall i: nat :: i <= last ==> (i in erasures <==> i in Missing(lengths, |lengths|))
    ensures valid == Present(lengths, |lengths|)[..k]
  {
    hide Present, Missing;
    ListMembers(lengths, |lengths|);
    var all := Present(lengths, |lengths|);
    var mine, last := all[..k], all[k - 1];
    assert last in all;
    forall i: nat | i <= last ensures i in mine <==> i !in erasures {
      if i in all {
        var j :| 0 <= j < |all| && all[j] == i;
        assert mine[j] == i;
      }
    }
    SharedPrefix(mine, valid, erasures, k);
  }

  /** Two ascending lists of `k` numbers, each the complement of the same erasures up to its last element. */
  lemma SharedPrefix(a: seq<nat>, b: seq<nat>, erasures: seq<nat>, k: nat)
    requires |a| == |b| == k > 0 && Ascending(a) && Ascending(b)
    requires forall i: nat :: i <= a[k - 1] ==> ((i in a) <==> (i !in erasures))
    requires forall i: nat :: i <= b[k - 1] ==> ((i in b) <==> (i !in erasures))
    ensures a == b
  {
    if a[k - 1] <= b[k - 1] {
      ShorterIsSame(a, b, k);
    } else {
      ShorterIsSame(b, a, k);
    }
  }

  lemma ShorterIsSame(a: seq<nat>, b: seq<nat>, k: nat)
    requires |a| == |b| == k > 0 && Ascending(a) && Ascending(b) && a[k - 1] <= b[k - 1]
    requires forall i: nat :: i <= a[k - 1] ==> (i in a <==> i in b)
    ensures a == b
  {
    var p := PartitionPoint(b, a[k - 1] + 1);
    var c := b[..p];
    forall x ensures x in a <==> x in c {
      if x in a {
        var i :| 0 <= i < k && a[i] == x;
        assert x <= a[k - 1] && x in b;
        var j :| 0 <= j < k && b[j] == x;
        assert c[j] == x;
      }
    }
    AscendingUnique(a, c);
  }

  // ----- reusing a plan's layout

  /** Counts first, then lengths, then the erasure pattern, then the shard length. */
  function LayoutVerdict(total: nat, lengths: seq<ShardLength>, expected: Shape): Result<(), Error> {
    var count, scan := CountError(total, |lengths|), Scan(lengths, |lengths|);
    if count.Some? then Err(count.value)
    else if scan.Err? then Err(scan.error)
    else if Missing(lengths, |lengths|) != expected.invalidIndices then Err(InvalidShardFlags)
    else if scan.value.shardLen != expected.shardLen then Err(IncorrectShardSize)
    else Ok(())
  }

  /** The cheap check of a reused layout, without building new index lists. */
  method ValidatePlanLayout(total: nat, lengths: seq<ShardLength>, expected: Shape) returns (r: Result<(), Error>)
    requires Ascending(expected.invalidIndices) && Below(expected.invalidIndices, total)
    ensures r == LayoutVerdict(total, lengths, expected)
  {
    var count := CountError(total, |lengths|);
    if count.Some? {
      return Err(count.value);
    }
    var missing := expected.invalidIndices;
    ScanStart(lengths, missing);
    hide Missing, Scan, Ascending, Below, Reached, SamePattern, Observed, CountError;
    var next: nat := 0;
    var samePattern := true;
    var state := new ClassicShardLengths();
    for index := 0 to |lengths|
      invariant fresh(state) && Scan(lengths, index) == Ok(state.State())
      invariant next <= |missing| && Reached(missing, index, next)
      invariant samePattern <==> SamePattern(lengths, index, missing, next)
    {
      ScanStep(lengths, index);
      var present := state.Observe(lengths[index]);
      if present.Err? {
        ScanStops(lengths, index + 1, |lengths|);
        return Err(present.error);
      }
      var wasMissing := next < |missing| && missing[next] == index;
      PatternStep(lengths, index, missing, next);
      if wasMissing {
        next := next + 1;
      }
      samePattern := samePattern && present.value != wasMissing;
    }
    PatternEnd(lengths, missing, next);
    if !samePattern {
      return Err(InvalidShardFlags);
    }
    if state.shardLen != expected.shardLen {
      return Err(IncorrectShardSize);
    }
    r := Ok(());
  }

  /** Which difference a refused layout reports. */
  lemma LayoutErrors(total: nat, lengths: seq<ShardLength>, expected: Shape)
    ensures var verdict, n := LayoutVerdict(total, lengths, expected), |lengths|;
      && (n < total ==> verdict == Err(TooFewShards)) && (n > total ==> verdict == Err(TooManyShards))
      && (n == total && !Uniform(lengths, n) ==> verdict == Err(EmptyShard) || verdict == Err(IncorrectShardSize))
      && (n == total && Uniform(lengths, n) && (exists i :: 0 <= i < n && (lengths[i].None? != (i in expected.invalidIndices))) ==>
            verdict == Err(InvalidShardFlags))
      && (verdict.Ok? ==> forall i :: 0 <= i < n ==>
            (lengths[i].None? <==> i in expected.invalidIndices) && (lengths[i].Some? ==> lengths[i].value == expected.shardLen))
      && (verdict == Err(InvalidShardFlags) ==> n == total && Uniform(lengths, n) && Missing(lengths, n) != expected.invalidIndices)
  {
    hide Missing, Present, Scan;
    var n := |lengths|;
    ScanMeaning(lengths, n);
    ListMembers(lengths, n);
    if Scan(lengths, n).Ok? {
      ScanKnows(lengths, n);
    } else {
      var i := ScanBlames(lengths, n);
    }
  }

  lemma ScanStart(lengths: seq<ShardLength>, missing: seq<nat>)
    ensures Scan(lengths, 0) == Ok(ScanState(0, 0))
    ensures Reached(missing, 0, 0) && SamePattern(lengths, 0, missing, 0)
  {
  }

  lemma ScanStep(lengths: seq<ShardLength>, n: nat)
    requires n < |lengths| && Scan(lengths, n).Ok?
    ensures Scan(lengths, n + 1) == Observed(Scan(lengths, n).value, lengths[n])
  {
  }

  /** The first `next` expected erasures are those below `n`. */
  ghost predicate Reached(missing: seq<nat>, n: nat, next: nat)
    requires next <= |missing|
  {
    forall i :: 0 <= i < |missing| ==> (missing[i] < n <==> i < next)
  }

  ghost predicate SamePattern(lengths: seq<ShardLength>, n: nat, missing: seq<nat>, next: nat)
    requires n <= |lengths| && next <= |missing|
  {
    Missing(lengths, n) == missing[..next]
  }

  /** A pattern that has once differed differs for good. */
  lemma PatternStep(lengths: seq<ShardLength>, n: nat, missing: seq<nat>, next: nat)
    requires n < |lengths| && Ascending(missing) && next <= |missing| && Reached(missing, n, next)
    ensures var here := next < |missing| && missing[next] == n;
      var next' := if here then next + 1 else next;
      && Reached(missing, n + 1, next')
      && (SamePattern(lengths, n + 1, missing, next') <==> SamePattern(lengths, n, missing, next) && (lengths[n].None? <==> here))
  {
    hide Missing, Present, Reached, Ascending;
    ReachedStep(missing, n, next);
    ReachedOut(missing, n, next);
    ListsStep(lengths, n);
    ListMember(lengths, n, n);
    AppendDecides(Missing(lengths, n), missing[..next], n, lengths[n].None?, next < |missing| && missing[next] == n);
  }

  lemma ReachedOut(missing: seq<nat>, n: nat, next: nat)
    requires next <= |missing| && Reached(missing, n, next)
    ensures n !in missing[..next]
    ensures next < |missing| ==> missing[..next + 1] == missing[..next] + [missing[next]]
  {
  }

  /** Appending a new element to either of two lists keeps them equal only if both get it. */
  lemma AppendDecides(p: seq<nat>, q: seq<nat>, x: nat, toFirst: bool, toSecond: bool)
    requires x !in p && x !in q
    ensures (if toFirst then p + [x] else p) == (if toSecond then q + [x] else q) <==> p == q && toFirst == toSecond
  {
    assert x in p + [x] && x in q + [x];
    AppendInjective(p, q, x);
  }

  lemma AppendInjective<T>(p: seq<T>, q: seq<T>, x: T)
    ensures p + [x] == q + [x] <==> p == q
  {
    if p + [x] == q + [x] {
      assert p == (p + [x])[..|p|] && q == (q + [x])[..|q|];
    }
  }

  lemma ReachedStep(missing: seq<nat>, n: nat, next: nat)
    requires Ascending(missing) && next <= |missing| && Reached(missing, n, next)
    ensures Reached(missing, n + 1, if next < |missing| && missing[next] == n then next + 1 else next)
  {
  }

  lemma PatternEnd(lengths: seq<ShardLength>, missing: seq<nat>, next: nat)
    requires Below(missing, |lengths|) && next <= |missing| && Reached(missing, |lengths|, next)
    ensures SamePattern(lengths, |lengths|, missing, next) <==> Missing(lengths, |lengths|) == missing
  {
    assert |missing| > 0 ==> missing[|missing| - 1] < |lengths|;
    assert missing[..|missing|] == missing;
  }

  /** The cheap check accepts a length list exactly when recomputing its shape gives the expected one. */
  lemma LayoutCheckIsExact(k: nat, total: nat, original: seq<ShardLength>, lengths: seq<ShardLength>)
    requires |original| == |lengths| == total && PreparedShape(k, original).Ok?
    ensures LayoutVerdict(total, lengths, PreparedShape(k, original).value).Ok? <==> PreparedShape(k, lengths) == PreparedShape(k, original)
  {
    hide Present, Missing, Scan;
    var expected, scan := PreparedShape(k, original).value, Scan(lengths, total);
    ListMembers(lengths, total);
    ListMembers(original, total);
    if scan.Ok? && Missing(lengths, total) == expected.invalidIndices {
      var p, q := Present(lengths, total), Present(original, total);
      forall x ensures x in p <==> x in q {
        assert x in Missing(lengths, total) <==> x in Missing(original, total);
      }
      AscendingUnique(p, q);
      ScanKnows(lengths, total);
      ScanKnows(original, total);
    }
  }
}
