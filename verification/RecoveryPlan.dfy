/** Planning a recovery: targets, the cached inverse, and the coefficient rows. */
module RecoveryPlans {
  import opened Outcomes
  import opened Fields
  import opened Vectors
  import opened Kernels
  import opened Codecs
  import opened Indices
  import opened DecodeMatrices
  import opened InversionCaches
  import opened RecoveryShapes
  import opened RecoveryRows

  // ----- the cached inverse

  /** The erasures that belong to a survivor selection: the gaps up to its last element. */
  ghost predicate KeyFits<E(!new)>(c: Codec<E>, valid: seq<nat>, key: seq<nat>) {
    && c.dataShards > 0 && |valid| == c.dataShards && Ascending(valid) && Below(valid, c.TotalShards())
    && forall i: nat :: i <= valid[c.dataShards - 1] ==> ((i in valid) <==> (i !in key))
  }

  /** Every cached matrix is the inverse for the survivors its key stands for. */
  ghost predicate Sound<E(!new)>(c: Codec<E>, entries: Entries<seq<seq<E>>>)
    requires c.Valid()
  {
    forall e, valid :: e in entries && KeyFits(c, valid, e.key) ==> AreInverse(c.field, Survived(c, valid), e.value, c.dataShards)
  }

  /** One key never stands for two survivor selections. */
  lemma KeyDetermines<E(!new)>(c: Codec<E>, a: seq<nat>, b: seq<nat>, key: seq<nat>)
    requires KeyFits(c, a, key) && KeyFits(c, b, key)
    ensures a == b
  {
    SharedPrefix(a, b, key, c.dataShards);
  }

  /** Erasures behind the last survivor are left out of the key. */
  function CacheKey(valid: seq<nat>, invalid: seq<nat>): (key: seq<nat>)
    requires |valid| > 0 && Ascending(invalid)
  {
    var lastSelected := valid[|valid| - 1];
    if |invalid| > 0 && invalid[|invalid| - 1] > lastSelected then invalid[..PartitionPoint(invalid, lastSelected)] else invalid
  }

  lemma CacheKeyFits<E(!new)>(c: Codec<E>, valid: seq<nat>, invalid: seq<nat>)
    requires Survivors(c, valid, invalid)
    ensures KeyFits(c, valid, CacheKey(valid, invalid))
  {
    var last, key := valid[|valid| - 1], CacheKey(valid, invalid);
    assert last in valid;
    forall i: nat | i <= last ensures i in key <==> i in invalid {
      if i < last {
        PrefixMembers(invalid, last, i);
      }
    }
  }

  /** Two erasure patterns with the same key have the same survivors. */
  lemma SameKeySameSurvivors<E(!new)>(c: Codec<E>, valid: seq<nat>, invalid: seq<nat>, valid': seq<nat>, invalid': seq<nat>)
    requires Survivors(c, valid, invalid) && Survivors(c, valid', invalid') && CacheKey(valid, invalid) == CacheKey(valid', invalid')
    ensures valid == valid'
  {
    CacheKeyFits(c, valid, invalid);
    CacheKeyFits(c, valid', invalid');
    KeyDetermines(c, valid, valid', CacheKey(valid, invalid));
  }

  /** And survivors have only one key, whatever was lost behind the last of them: every such pattern hits. */
  lemma SameSurvivorsSameKey<E(!new)>(c: Codec<E>, valid: seq<nat>, invalid: seq<nat>, invalid': seq<nat>)
    requires Survivors(c, valid, invalid) && Survivors(c, valid, invalid')
    ensures CacheKey(valid, invalid) == CacheKey(valid, invalid')
  {
    KeyIsGaps(c, valid, invalid);
    KeyIsGaps(c, valid, invalid');
    hide CacheKey, Ascending, Survivors;
    AscendingUnique(CacheKey(valid, invalid), CacheKey(valid, invalid'));
  }

  /** The key lists the numbers below the last survivor that are not survivors. */
  lemma KeyIsGaps<E(!new)>(c: Codec<E>, valid: seq<nat>, invalid: seq<nat>)
    requires Survivors(c, valid, invalid)
    ensures Ascending(CacheKey(valid, invalid))
    ensures forall i: nat :: i in CacheKey(valid, invalid) <==> i < valid[|valid| - 1] && i !in valid
  {
    var last, key := valid[|valid| - 1], CacheKey(valid, invalid);
    assert last in valid;
    PrefixAscending(invalid, PartitionPoint(invalid, last));
    forall i: nat ensures i in key <==> i < last && i !in valid {
      if i < last {
        PrefixMembers(invalid, last, i);
      } else {
        KeyBelow(valid, invalid, i);
      }
    }
  }

  lemma PrefixAscending(s: seq<nat>, p: nat)
    requires Ascending(s) && p <= |s|
    ensures Ascending(s[..p])
  {
  }

  lemma KeyBelow(valid: seq<nat>, invalid: seq<nat>, i: nat)
    requires |valid| > 0 && Ascending(invalid) && i >= valid[|valid| - 1] && valid[|valid| - 1] !in invalid
    ensures i !in CacheKey(valid, invalid)
  {
    var last, key := valid[|valid| - 1], CacheKey(valid, invalid);
    forall j | 0 <= j < |key| ensures key[j] < last {
      assert key[j] == invalid[j] && invalid[j] in invalid;
      assert invalid[j] <= invalid[|invalid| - 1];
    }
  }

  lemma SoundAfterInsert<E(!new)>(c: Codec<E>, before: Entries<seq<seq<E>>>, after: Entries<seq<seq<E>>>, valid: seq<nat>, key: seq<nat>, d: seq<seq<E>>)
    requires c.Valid() && Sound(c, before) && KeyFits(c, valid, key) && AreInverse(c.field, Survived(c, valid), d, c.dataShards)
    requires forall e :: e in after ==> e in before || (e.key == key && e.value == d)
    ensures Sound(c, after)
  {
    forall e, v | e in after && KeyFits(c, v, e.key) ensures AreInverse(c.field, Survived(c, v), e.value, c.dataShards) {
      if e !in before {
        KeyDetermines(c, v, valid, key);
      }
    }
  }

  type Inverse<E> = seq<seq<E>>

  /** The decode matrix from the cache, or a new one that is then cached. */
  method GetDataDecodeMatrix<E(==, !new)>(c: Codec<E>, cache: Option<InversionCache<Inverse<E>>>, valid: seq<nat>, invalid: seq<nat>,
                                          byteRows: bool, matrixBytes: nat)
    returns (r: Result<Inverse<E>, Error>)
    requires c.Valid() && Ascending(invalid) && (|valid| == c.dataShards ==> Survivors(c, valid, invalid))
    requires cache.Some? ==> cache.value.Valid() && Sound(c, cache.value.entries)
    modifies if cache.Some? then {cache.value} else {}
    ensures cache.Some? ==> cache.value.Valid() && Sound(c, cache.value.entries)
    ensures |valid| != c.dataShards ==> r == Err(TooFewShardsPresent)
    ensures |valid| == c.dataShards ==> (r.Ok? <==> TrivialKernel(c.field, Survived(c, valid), c.dataShards))
    ensures |valid| == c.dataShards && r.Err? ==> r.error == InvalidMatrix
    ensures r.Ok? ==> |valid| == c.dataShards && AreInverse(c.field, Survived(c, valid), r.value, c.dataShards)
    ensures cache.Some? && |valid| == c.dataShards && Lookup(old(cache.value.entries), CacheKey(valid, invalid)).Some? ==>
      r == Ok(Lookup(old(cache.value.entries), CacheKey(valid, invalid)).value)
    ensures cache.Some? && r.Ok? && cache.value.capacity > 0
            && |CacheKey(valid, invalid)| * 8 + matrixBytes <= cache.value.maxBytes <= 0xFFFF_FFFF_FFFF_FFFF ==>
      Lookup(cache.value.entries, CacheKey(valid, invalid)) == Some(r.value)
  {
    hide AreInverse, TrivialKernel, Field.Valid, Touched, Lookup, CacheKey, KeyFits, Survivors;
    if |valid| != c.dataShards {
      return Err(TooFewShardsPresent);
    }
    var key := CacheKey(valid, invalid);
    CacheKeyFits(c, valid, invalid);
    if cache.Some? {
      ghost var was := cache.value.entries;
      var hit := cache.value.Find(key);
      LookupIsEntry(was, key);
      if hit.Some? {
        InverseTrivialKernel(c.field, Survived(c, valid), hit.value, c.dataShards);
        return Ok(hit.value);
      }
    }
    var built := BuildDataDecodeMatrix(c, valid, byteRows);
    if built.Err? {
      return Err(built.error);
    }
    var decode := ReadRows(built.value);
    if cache.Some? {
      Remember(c, cache.value, valid, key, decode, matrixBytes);
    }
    r := Ok(decode);
  }

  /** Caches a new inverse under its key, if the limits of the cache admit it. */
  method Remember<E(!new)>(c: Codec<E>, cache: InversionCache<Inverse<E>>, valid: seq<nat>, key: seq<nat>, decode: Inverse<E>, matrixBytes: nat)
    requires c.Valid() && cache.Valid() && Sound(c, cache.entries)
    requires KeyFits(c, valid, key) && AreInverse(c.field, Survived(c, valid), decode, c.dataShards)
    modifies cache
    ensures cache.Valid() && Sound(c, cache.entries)
    ensures cache.capacity > 0 && |key| * 8 + matrixBytes <= cache.maxBytes <= 0xFFFF_FFFF_FFFF_FFFF ==>
      Lookup(cache.entries, key) == Some(decode)
  {
    hide AreInverse, TrivialKernel, Field.Valid, Touched, Lookup, KeyFits, Sound, EvictionCount, Total, Least;
    ghost var was := cache.entries;
    var _, _ := cache.Insert(key, |key|, decode, matrixBytes);
    SoundAfterInsert(c, was, cache.entries, valid, key, decode);
  }

  lemma LookupIsEntry<V>(s: Entries<V>, key: seq<nat>)
    ensures Lookup(s, key).Some? ==> exists e :: e in s && e.key == key && e.value == Lookup(s, key).value
  {
    var i := IndexOf(s, key);
    if i < |s| {
      assert s[i] in s;
    }
  }

  // ----- targets

  datatype Goal = All | Data | Required(flags: seq<bool>)

  /** What a goal asks for among the missing shards: all of them, the data, or the flagged ones. */
  ghost predicate Wanted(goal: Goal, k: nat, index: nat) {
    match goal
    case All => true
    case Data => index < k
    case Required(flags) => index < |flags| && flags[index]
  }

  /** Whether a missing shard stays in the target list; parity is dropped later when only data is wanted. */
  predicate Requested(goal: Goal, index: nat) {
    goal.Required? ==> index < |goal.flags| && goal.flags[index]
  }

  function Filtered(s: seq<nat>, goal: Goal): (r: seq<nat>)
    ensures |r| <= |s|
  {
    if s == [] then []
    else
      var rest, last := Filtered(s[..|s| - 1], goal), s[|s| - 1];
      if Requested(goal, last) then rest + [last] else rest
  }

  lemma {:induction false} FilteredMember(s: seq<nat>, goal: Goal, i: nat)
    ensures i in Filtered(s, goal) <==> i in s && Requested(goal, i)
  {
    if s != [] {
      FilteredMember(s[..|s| - 1], goal, i);
      assert s == s[..|s| - 1] + [s[|s| - 1]];
    }
  }

  lemma FilteredMembers(s: seq<nat>, goal: Goal)
    ensures forall i {:trigger i in Filtered(s, goal)} ::
      i in Filtered(s, goal) <==> i in s && (goal.Required? ==> i < |goal.flags| && goal.flags[i])
  {
    forall i: nat ensures i in Filtered(s, goal) <==> i in s && Requested(goal, i) {
      FilteredMember(s, goal, i);
    }
  }

  lemma {:induction false} FilteredAscending(s: seq<nat>, goal: Goal)
    requires Ascending(s)
    ensures Ascending(Filtered(s, goal))
    ensures forall i :: 0 <= i < |Filtered(s, goal)| ==> Filtered(s, goal)[i] in s
  {
    if s != [] {
      var rest := s[..|s| - 1];
      FilteredAscending(rest, goal);
      assert forall x :: x in rest ==> x < s[|s| - 1];
    }
  }

  lemma {:induction false} FilteredAll(s: seq<nat>, goal: Goal)
    requires forall i :: 0 <= i < |s| ==> Requested(goal, s[i])
    ensures Filtered(s, goal) == s
  {
    if s != [] {
      FilteredAll(s[..|s| - 1], goal);
    }
  }

  predicate FlagsFit(goal: Goal, k: nat, total: nat) {
    goal.Required? ==> |goal.flags| == k || |goal.flags| == total
  }

  // ----- the plan

  /** The finished plan.  Without an owned target list it shares the erasure list of its shape. */
  datatype Plan<E(!new)> = Plan(
    shape: Shape,
    dataOnly: bool,
    selectedTargets: Option<seq<nat>>,
    dataTargetCount: nat,
    directParity: bool,
    decodeMatrix: Option<Inverse<E>>,
    parityDecodeRows: seq<seq<E>>)
  {
    function TargetIndices(): seq<nat> {
      if selectedTargets.Some? then selectedTargets.value else shape.invalidIndices
    }

    function DataTargets(): seq<nat>
      requires dataTargetCount <= |TargetIndices()|
    {
      TargetIndices()[..dataTargetCount]
    }

    function ParityTargets(): seq<nat>
      requires dataTargetCount <= |TargetIndices()|
    {
      if dataOnly then [] else TargetIndices()[dataTargetCount..]
    }

    predicate HasOutputs()
      requires dataTargetCount <= |TargetIndices()|
    {
      DataTargets() != [] || ParityTargets() != []
    }

    /** The target lists are the requested erasures, data first. */
    ghost predicate Targeted(k: nat, goal: Goal) {
      && Ascending(shape.invalidIndices) && Ascending(Filtered(shape.invalidIndices, goal))
      && dataOnly == goal.Data?
      && TargetIndices() == Filtered(shape.invalidIndices, goal)
      && dataTargetCount == PartitionPoint(Filtered(shape.invalidIndices, goal), k)
    }

    /** The erasure list is in range and describes the survivors whenever something is missing. */
    ghost predicate Located(c: Codec<E>) {
      && Ascending(shape.invalidIndices) && Below(shape.invalidIndices, c.TotalShards())
      && (shape.invalidIndices != [] ==> Survivors(c, shape.validIndices, shape.invalidIndices))
    }

    /** The inverse is there exactly when some data is missing and something was requested. */
    ghost predicate Inverted(c: Codec<E>)
      requires c.Valid() && Located(c) && dataTargetCount <= |TargetIndices()|
    {
      && (decodeMatrix.Some? <==> MissingData(shape.invalidIndices, c.dataShards) != [] && HasOutputs())
      && (decodeMatrix.Some? ==> AreInverse(c.field, Survived(c, shape.validIndices), decodeMatrix.value, c.dataShards))
    }

    /** Selective parity has one composed row per target. */
    ghost predicate Composed(c: Codec<E>, goal: Goal)
      requires c.Valid() && Located(c) && dataTargetCount <= |TargetIndices()|
    {
      && (directParity <==> goal.Required? && MissingData(shape.invalidIndices, c.dataShards) != [] && ParityTargets() != [])
      && |parityDecodeRows| == (if directParity then |ParityTargets()| else 0)
      && forall j :: 0 <= j < |parityDecodeRows| ==>
           ParityTargets()[j] < c.TotalShards() && Recovers(c, shape.validIndices, parityDecodeRows[j], ParityTargets()[j])
    }

    /** What a completed plan promises its executor. */
    ghost predicate Planned(c: Codec<E>, goal: Goal)
      requires c.Valid()
    {
      Targeted(c.dataShards, goal) && Located(c) && Inverted(c) && Composed(c, goal)
    }
  }

  /** Selects the requested targets, sharing the erasure list when nothing is excluded. */
  method SelectTargets(invalid: seq<nat>, k: nat, goal: Goal) returns (selected: Option<seq<nat>>, dataCount: nat)
    requires Ascending(invalid)
    ensures (if selected.Some? then selected.value else invalid) == Filtered(invalid, goal)
    ensures Ascending(Filtered(invalid, goal)) && dataCount == PartitionPoint(Filtered(invalid, goal), k)
    ensures forall i {:trigger i in Filtered(invalid, goal)} ::
      i in Filtered(invalid, goal) <==> i in invalid && (goal.Required? ==> i < |goal.flags| && goal.flags[i])
  {
    FilteredAscending(invalid, goal);
    FilteredMembers(invalid, goal);
    hide Ascending, Filtered, PartitionPoint;
    if !goal.Required? {
      FilteredAll(invalid, goal);
      return None, PartitionPoint(invalid, k);
    }
    var firstExcluded := FirstExcluded(invalid, goal);
    if firstExcluded == |invalid| {
      return None, PartitionPoint(invalid, k);
    }
    var targets := FilterFrom(invalid, goal, firstExcluded);
    return Some(targets), PartitionPoint(targets, k);
  }

  /** The accepted prefix of the erasures. */
  method FirstExcluded(invalid: seq<nat>, goal: Goal) returns (p: nat)
    ensures p <= |invalid| && Filtered(invalid[..p], goal) == invalid[..p]
    ensures p < |invalid| ==> !Requested(goal, invalid[p])
    ensures p == |invalid| ==> Filtered(invalid, goal) == invalid
  {
    p := 0;
    while p < |invalid| && Requested(goal, invalid[p])
      invariant p <= |invalid| && Filtered(invalid[..p], goal) == invalid[..p]
    {
      FilteredStep(invalid, goal, p);
      assert invalid[..p + 1] == invalid[..p] + [invalid[p]];
      p := p + 1;
    }
    assert invalid[..|invalid|] == invalid;
  }

  /** Copies the accepted prefix and filters what follows the first exclusion. */
  method FilterFrom(invalid: seq<nat>, goal: Goal, firstExcluded: nat) returns (targets: seq<nat>)
    requires firstExcluded < |invalid| && !Requested(goal, invalid[firstExcluded])
    requires Filtered(invalid[..firstExcluded], goal) == invalid[..firstExcluded]
    ensures targets == Filtered(invalid, goal)
  {
    targets := invalid[..firstExcluded];
    FilteredStep(invalid, goal, firstExcluded);
    for j := firstExcluded + 1 to |invalid|
      invariant targets == Filtered(invalid[..j], goal)
    {
      FilteredStep(invalid, goal, j);
      if Requested(goal, invalid[j]) {
        targets := targets + [invalid[j]];
      }
    }
    assert invalid[..|invalid|] == invalid;
  }

  lemma FilteredStep(s: seq<nat>, goal: Goal, n: nat)
    requires n < |s|
    ensures Filtered(s[..n + 1], goal)
         == if Requested(goal, s[n]) then Filtered(s[..n], goal) + [s[n]] else Filtered(s[..n], goal)
  {
    assert s[..n + 1][..n] == s[..n];
  }

  /** The requests of a goal that lie among the erasures: exactly the target lists. */
  lemma TargetsAreRequests<E(!new)>(p: Plan<E>, c: Codec<E>, goal: Goal, i: nat)
    requires p.Targeted(c.dataShards, goal)
    ensures i in p.DataTargets() <==> i in p.shape.invalidIndices && i < c.dataShards && Wanted(goal, c.dataShards, i)
    ensures i in p.ParityTargets() <==> i in p.shape.invalidIndices && i >= c.dataShards && Wanted(goal, c.dataShards, i)
    ensures Ascending(p.DataTargets()) && Ascending(p.ParityTargets())
  {
    FilteredMember(p.shape.invalidIndices, goal, i);
    SplitMembers(p.TargetIndices(), c.dataShards, i);
    hide Filtered, PartitionPoint, Ascending;
  }

  lemma SplitMembers(t: seq<nat>, k: nat, i: nat)
    requires Ascending(t)
    ensures i in t[..PartitionPoint(t, k)] <==> i in t && i < k
    ensures i in t[PartitionPoint(t, k)..] <==> i in t && i >= k
    ensures Ascending(t[..PartitionPoint(t, k)]) && Ascending(t[PartitionPoint(t, k)..])
  {
    var p := PartitionPoint(t, k);
    if i in t {
      var j :| 0 <= j < |t| && t[j] == i;
      assert j < p ==> t[..p][j] == i;
      assert j >= p ==> t[p..][j - p] == i;
    }
  }

  /** Completes a plan before any destination is touched. */
  method PreparePlan<E(==, !new)>(c: Codec<E>, shape: Shape, goal: Goal, cache: Option<InversionCache<Inverse<E>>>, byteRows: bool, matrixBytes: nat)
    returns (r: Result<Plan<E>, Error>)
    requires c.Valid() && Ascending(shape.invalidIndices) && Below(shape.invalidIndices, c.TotalShards())
    requires shape.numberPresent >= c.dataShards && shape.invalidIndices != [] ==> Survivors(c, shape.validIndices, shape.invalidIndices)
    requires cache.Some? ==> cache.value.Valid() && Sound(c, cache.value.entries)
    modifies if cache.Some? then {cache.value} else {}
    ensures cache.Some? ==> cache.value.Valid() && Sound(c, cache.value.entries)
    ensures shape.numberPresent < c.dataShards ==> r == Err(TooFewShardsPresent)
    ensures shape.numberPresent >= c.dataShards && !FlagsFit(goal, c.dataShards, c.TotalShards()) ==> r == Err(InvalidShardFlags)
    ensures shape.numberPresent >= c.dataShards && FlagsFit(goal, c.dataShards, c.TotalShards()) ==>
      (r.Err? <==> NeedsInverse(shape, c.dataShards, goal) && !TrivialKernel(c.field, Survived(c, shape.validIndices), c.dataShards))
      && (r.Err? ==> r.error == InvalidMatrix)
    ensures r.Ok? ==> r.value.shape == shape && r.value.Planned(c, goal)
  {
    hide AreInverse, TrivialKernel, Field.Valid, Recovers, Survivors, Filtered, Sound, Ascending, Below;
    if shape.numberPresent < c.dataShards {
      return Err(TooFewShardsPresent);
    }
    if goal.Required? && |goal.flags| != c.dataShards && |goal.flags| != c.TotalShards() {
      return Err(InvalidShardFlags);
    }
    var selected, dataCount := SelectTargets(shape.invalidIndices, c.dataShards, goal);
    var plan: Plan<E> := Plan(shape, goal.Data?, selected, dataCount, false, None, []);
    var inverted := InvertIfNeeded(c, plan, goal, cache, byteRows, matrixBytes);
    if inverted.Err? {
      return inverted;
    }
    plan := ComposeIfNeeded(c, inverted.value, goal);
    r := Ok(plan);
  }

  method InvertIfNeeded<E(==, !new)>(c: Codec<E>, plan: Plan<E>, goal: Goal, cache: Option<InversionCache<Inverse<E>>>, byteRows: bool, matrixBytes: nat)
    returns (r: Result<Plan<E>, Error>)
    requires c.Valid() && plan.Targeted(c.dataShards, goal) && plan.Located(c) && plan.decodeMatrix.None?
    requires cache.Some? ==> cache.value.Valid() && Sound(c, cache.value.entries)
    modifies if cache.Some? then {cache.value} else {}
    ensures cache.Some? ==> cache.value.Valid() && Sound(c, cache.value.entries)
    ensures r.Err? <==> NeedsInverse(plan.shape, c.dataShards, goal) && !TrivialKernel(c.field, Survived(c, plan.shape.validIndices), c.dataShards)
    ensures r.Err? ==> r.error == InvalidMatrix
    ensures r.Ok? ==> r.value == plan.(decodeMatrix := r.value.decodeMatrix) && r.value.Inverted(c)
  {
    hide AreInverse, TrivialKernel, Field.Valid, Survivors, Filtered, Sound, Ascending, Below;
    var missingData := MissingData(plan.shape.invalidIndices, c.dataShards);
    OutputsMeaning(plan, c.dataShards, goal);
    r := Ok(plan);
    if missingData != [] && (plan.DataTargets() != [] || plan.ParityTargets() != []) {
      SurvivorsShape(c, plan.shape.validIndices, plan.shape.invalidIndices);
      var inverse := GetDataDecodeMatrix(c, cache, plan.shape.validIndices, plan.shape.invalidIndices, byteRows, matrixBytes);
      if inverse.Err? {
        return Err(inverse.error);
      }
      r := Ok(plan.(decodeMatrix := Some(inverse.value)));
    }
  }

  method ComposeIfNeeded<E(!new)>(c: Codec<E>, plan: Plan<E>, goal: Goal) returns (p: Plan<E>)
    requires c.Valid() && plan.Targeted(c.dataShards, goal) && plan.Located(c) && plan.Inverted(c)
    requires !plan.directParity && plan.parityDecodeRows == []
    ensures p.shape == plan.shape && p.Planned(c, goal)
  {
    hide AreInverse, Field.Valid, Recovers, Survivors, Filtered, Ascending, Below;
    p := plan;
    if goal.Required? && MissingData(plan.shape.invalidIndices, c.dataShards) != [] && plan.ParityTargets() != [] {
      var rows := ComposeParityRows(c, plan, goal);
      p := plan.(directParity := true, parityDecodeRows := rows);
    }
  }

  /** Data is missing and some erasure is requested. */
  ghost predicate NeedsInverse(shape: Shape, k: nat, goal: Goal)
    requires Ascending(shape.invalidIndices)
  {
    MissingData(shape.invalidIndices, k) != [] && Filtered(shape.invalidIndices, goal) != []
  }

  lemma OutputsMeaning<E(!new)>(p: Plan<E>, k: nat, goal: Goal)
    requires p.Targeted(k, goal)
    ensures MissingData(p.shape.invalidIndices, k) != [] && p.HasOutputs() <==> NeedsInverse(p.shape, k, goal)
  {
    hide Filtered, Ascending, PartitionPoint;
    var t := p.TargetIndices();
    assert |t| == |t[..p.dataTargetCount]| + |t[p.dataTargetCount..]|;
    if goal.Data? {
      FilteredAll(p.shape.invalidIndices, goal);
    }
  }

  lemma SurvivorsShape<E(!new)>(c: Codec<E>, valid: seq<nat>, invalid: seq<nat>)
    requires Survivors(c, valid, invalid)
    ensures c.dataShards > 0 && |valid| == c.dataShards && Ascending(valid) && Below(valid, c.TotalShards()) && Ascending(invalid)
  {
  }

  lemma InverseShape<E(!new)>(f: Field<E>, a: seq<seq<E>>, b: seq<seq<E>>, k: nat)
    requires AreInverse(f, a, b, k)
    ensures IsMatrix(b, k, k)
  {
  }

  lemma TargetsBelow<E(!new)>(p: Plan<E>, total: nat, k: nat, goal: Goal)
    requires p.Targeted(k, goal) && Below(p.shape.invalidIndices, total)
    ensures Below(p.DataTargets(), total) && Below(p.ParityTargets(), total)
  {
    FilteredAscending(p.shape.invalidIndices, goal);
  }

  /** Composes one coefficient row per parity target. */
  method ComposeParityRows<E(!new)>(c: Codec<E>, p: Plan<E>, goal: Goal) returns (rows: seq<seq<E>>)
    requires c.Valid() && p.Targeted(c.dataShards, goal) && p.Located(c)
    requires Survivors(c, p.shape.validIndices, p.shape.invalidIndices)
    requires p.decodeMatrix.Some? && AreInverse(c.field, Survived(c, p.shape.validIndices), p.decodeMatrix.value, c.dataShards)
    ensures |rows| == |p.ParityTargets()|
    ensures forall j :: 0 <= j < |rows| ==>
      p.ParityTargets()[j] < c.TotalShards() && Recovers(c, p.shape.validIndices, rows[j], p.ParityTargets()[j])
  {
    hide AreInverse, Field.Valid, Recovers, Filtered, Survivors;
    var targets := p.ParityTargets();
    SurvivorsShape(c, p.shape.validIndices, p.shape.invalidIndices);
    TargetsBelow(p, c.TotalShards(), c.dataShards, goal);
    rows := [];
    for j := 0 to |targets|
      invariant |rows| == j
      invariant forall l :: 0 <= l < j ==> Recovers(c, p.shape.validIndices, rows[l], targets[l])
    {
      var row := ComposeTarget(c, targets[j], p.shape.validIndices, p.shape.invalidIndices, p.decodeMatrix.value);
      rows := rows + [row];
    }
  }

  /** The composed row of one parity target. */
  method ComposeTarget<E(!new)>(c: Codec<E>, target: nat, valid: seq<nat>, invalid: seq<nat>, d: seq<seq<E>>) returns (row: seq<E>)
    requires c.Valid() && Survivors(c, valid, invalid) && target < c.TotalShards()
    requires AreInverse(c.field, Survived(c, valid), d, c.dataShards)
    ensures Recovers(c, valid, row, target)
  {
    hide AreInverse, Recovers;
    DataPartition(c, valid, invalid);
    InverseShape(c.field, Survived(c, valid), d, c.dataShards);
    row := ComposeRow(c, c.matrix[target], valid, MissingData(invalid, c.dataShards), d);
    ComposedRowRecovers(c, target, valid, invalid, d, row);
  }

  /** One composed row, entry by entry. */
  method ComposeRow<E(!new)>(c: Codec<E>, parity: seq<E>, valid: seq<nat>, missing: seq<nat>, d: seq<seq<E>>) returns (row: seq<E>)
    requires |parity| == |valid| == c.dataShards && Below(missing, c.dataShards) && IsMatrix(d, c.dataShards, c.dataShards)
    ensures |row| == c.dataShards
    ensures forall j :: 0 <= j < c.dataShards ==> row[j] == ComposedEntry(c, parity, valid, missing, d, j)
  {
    row := [];
    for column := 0 to c.dataShards
      invariant |row| == column
      invariant forall j :: 0 <= j < column ==> row[j] == ComposedEntry(c, parity, valid, missing, d, j)
    {
      var survivor := valid[column];
      var known := if survivor < c.dataShards then parity[survivor] else c.field.zero;
      var sum := known;
      for i := 0 to |missing|
        invariant sum == FoldTerms(c.field, known, Gather(parity, missing), Gather(Col(d, column), missing), i)
      {
        sum := c.field.Add(sum, c.field.Mul(parity[missing[i]], d[missing[i]][column]));
      }
      row := row + [sum];
    }
  }

  // ----- the two ways to read the rows

  /** The rows of the data targets, read one by one. */
  function DataRows<E(!new)>(p: Plan<E>): (rows: seq<seq<E>>)
    requires p.dataTargetCount <= |p.TargetIndices()|
    requires p.DataTargets() != [] ==> p.decodeMatrix.Some? && Below(p.DataTargets(), |p.decodeMatrix.value|)
    ensures |rows| == |p.DataTargets()|
    ensures forall i {:trigger rows[i]} :: 0 <= i < |rows| ==> rows[i] == p.decodeMatrix.value[p.DataTargets()[i]]
  {
    if p.DataTargets() == [] then [] else Gather(p.decodeMatrix.value, p.DataTargets())
  }

  /** The rows of the parity targets: composed ones, or the encoding rows for completed data. */
  function ParityRows<E(!new)>(p: Plan<E>, matrix: seq<seq<E>>): (rows: seq<seq<E>>)
    requires p.dataTargetCount <= |p.TargetIndices()| && Below(p.ParityTargets(), |matrix|)
    ensures |rows| == if p.directParity then |p.parityDecodeRows| else |p.ParityTargets()|
  {
    (if p.directParity then p.parityDecodeRows else []) + Gather(matrix, if p.directParity then [] else p.ParityTargets())
  }

  lemma DataRowsRecover<E(!new)>(p: Plan<E>, c: Codec<E>, goal: Goal)
    requires c.Valid() && p.Planned(c, goal)
    ensures Below(p.DataTargets(), c.dataShards)
    ensures p.DataTargets() != [] ==>
      && Survivors(c, p.shape.validIndices, p.shape.invalidIndices)
      && p.decodeMatrix.Some? && IsMatrix(p.decodeMatrix.value, c.dataShards, c.dataShards)
      && forall i :: 0 <= i < |p.DataTargets()| ==> Recovers(c, p.shape.validIndices, DataRows(p)[i], p.DataTargets()[i])
  {
    hide AreInverse, Field.Valid, Recovers, Filtered, Survivors;
    if p.DataTargets() != [] {
      var t := p.DataTargets()[0];
      FilteredMember(p.shape.invalidIndices, goal, t);
      assert t in p.TargetIndices();
      PrefixMembers(p.shape.invalidIndices, c.dataShards, t);
      SurvivorsShape(c, p.shape.validIndices, p.shape.invalidIndices);
      InverseShape(c.field, Survived(c, p.shape.validIndices), p.decodeMatrix.value, c.dataShards);
      forall i | 0 <= i < |p.DataTargets()| ensures Recovers(c, p.shape.validIndices, DataRows(p)[i], p.DataTargets()[i]) {
        DecodeRowRecovers(c, p.shape.validIndices, p.decodeMatrix.value, p.DataTargets()[i]);
      }
    }
  }

  /** A window on the coefficient rows of a plan, numbered through from data to parity. */
  datatype RowView<E(!new)> = RowView(plan: Plan<E>, matrix: seq<seq<E>>, start: nat, len: nat) {

    ghost predicate Valid() {
      && plan.dataTargetCount <= |plan.TargetIndices()| && Below(plan.ParityTargets(), |matrix|)
      && (plan.DataTargets() != [] ==> plan.decodeMatrix.Some? && Below(plan.DataTargets(), |plan.decodeMatrix.value|))
      && (plan.directParity ==> |plan.parityDecodeRows| == |plan.ParityTargets()|)
      && start + len <= |plan.DataTargets()| + |plan.ParityTargets()|
    }

    /** Indexed access. */
    function Row(index: nat): seq<E>
      requires Valid() && index < len
    {
      var at := start + index;
      var dataTargets := plan.DataTargets();
      if at < |dataTargets| then plan.decodeMatrix.value[dataTargets[at]]
      else if plan.directParity then plan.parityDecodeRows[at - |dataTargets|]
      else matrix[plan.ParityTargets()[at - |dataTargets|]]
    }

    function SplitAt(index: nat): (parts: (RowView<E>, RowView<E>))
      requires Valid() && index <= len
      ensures parts.0.Valid() && parts.1.Valid()
    {
      (this.(len := index), this.(start := start + index, len := len - index))
    }

    /** Indexed access and the data-then-parity iterators denote the same rows. */
    lemma RowsAgree(index: nat)
      requires Valid() && index < len
      ensures Row(index) == (DataRows(plan) + ParityRows(plan, matrix))[start + index]
    {
    }

    /** Splitting a view splits its rows. */
    lemma SplitAgrees(index: nat, i: nat)
      requires Valid() && index <= len && i < len
      ensures Row(i) == if i < index then SplitAt(index).0.Row(i) else SplitAt(index).1.Row(i - index)
    {
    }
  }

  /** The view over all rows of a plan. */
  function RowViews<E(!new)>(p: Plan<E>, matrix: seq<seq<E>>): RowView<E>
    requires p.dataTargetCount <= |p.TargetIndices()|
  {
    RowView(p, matrix, 0, |p.DataTargets()| + |p.ParityTargets()|)
  }

  /** Every completed plan has a view, over as many rows as it has targets; reading it by index and
      iterating over data and then parity rows give the same list. */
  lemma RowViewsAgree<E(!new)>(p: Plan<E>, c: Codec<E>, goal: Goal)
    requires c.Valid() && p.Planned(c, goal)
    ensures RowViews(p, c.matrix).Valid()
    ensures var v, rows := RowViews(p, c.matrix), DataRows(p) + ParityRows(p, c.matrix);
      |rows| == v.len == |p.DataTargets()| + |p.ParityTargets()|
      && forall i :: 0 <= i < v.len ==> v.Row(i) == rows[i]
  {
    hide AreInverse, Field.Valid, Recovers, Filtered, Survivors;
    TargetsBelow(p, c.TotalShards(), c.dataShards, goal);
    DataRowsRecover(p, c, goal);
    var v := RowViews(p, c.matrix);
    forall i | 0 <= i < v.len ensures v.Row(i) == (DataRows(p) + ParityRows(p, c.matrix))[i] {
      v.RowsAgree(i);
    }
  }
}
