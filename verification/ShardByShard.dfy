/** Shard-by-shard encoding: a cursor over the data shards that guards the single-shard operations. */
module ShardByShardEncoding {
  import opened Outcomes
  import opened Fields
  import opened Vectors
  import opened Codecs
  import opened Coding
  import opened Encoding

  datatype SbsError = TooManyCalls | LeftoverShards | RSError(error: Error)

  // ----- the protocol as a state machine

  /** The cursor and the contents of the caller's parity buffers. */
  datatype State<E> = State(cur: nat, parity: seq<seq<E>>)

  /** What a caller can do: feed the data shards, apart from the parity or in one list with it, or reset. */
  datatype Call<E> = FeedSeparate(data: seq<seq<E>>) | FeedTogether(data: seq<seq<E>>) | Reset | ResetForce

  function FeedError<E(!new)>(c: Codec<E>, cur: nat, check: Option<Error>): Option<SbsError> {
    if cur == c.dataShards then Some(TooManyCalls)
    else if check.Some? then Some(RSError(check.value))
    else None
  }

  function ResetError<E(!new)>(c: Codec<E>, cur: nat): Option<SbsError> {
    if cur > 0 && cur != c.dataShards then Some(LeftoverShards) else None
  }

  ghost function CallError<E(!new)>(c: Codec<E>, s: State<E>, call: Call<E>): Option<SbsError>
    requires c.Valid()
  {
    match call
    case FeedSeparate(data) => FeedError(c, s.cur, EncodeSepCheck(c, Lengths(data), Lengths(s.parity)))
    case FeedTogether(data) => FeedError(c, s.cur, EncodeCheck(c, Lengths(data + s.parity)))
    case Reset => ResetError(c, s.cur)
    case ResetForce => None
  }

  ghost predicate Consistent<E(!new)>(c: Codec<E>, s: State<E>, len: nat) {
    s.cur <= c.dataShards && IsMatrix(s.parity, c.parityShards, len)
  }

  /** An accepted call comes with `k` data shards of the parity's length. */
  lemma AcceptedShape<E(!new)>(c: Codec<E>, s: State<E>, call: Call<E>, len: nat)
    requires c.Valid() && Consistent(c, s, len) && CallError(c, s, call).None?
    ensures call.FeedSeparate? || call.FeedTogether? ==> s.cur < c.dataShards && IsMatrix(call.data, c.dataShards, len)
  {
    match call
    case FeedSeparate(data) =>
      assert Lengths(s.parity)[0] == len;
      forall i | 0 <= i < c.dataShards ensures |data[i]| == len {
        assert Lengths(data)[i] == |data[i]|;
      }
    case FeedTogether(data) =>
      var all := data + s.parity;
      assert all[c.dataShards] == s.parity[0] && Lengths(all)[c.dataShards] == len;
      forall i | 0 <= i < c.dataShards ensures |data[i]| == len {
        assert all[i] == data[i] && Lengths(all)[i] == |data[i]|;
      }
    case _ =>
  }

  /** One call.  A refused call changes nothing. */
  ghost function Step<E(!new)>(c: Codec<E>, s: State<E>, call: Call<E>, len: nat): (t: State<E>)
    requires c.Valid() && Consistent(c, s, len)
    ensures Consistent(c, t, len)
  {
    if CallError(c, s, call).Some? then s
    else if call.Reset? || call.ResetForce? then s.(cur := 0)
    else
      AcceptedShape(c, s, call, len);
      State(s.cur + 1, WithShard(c, s.parity, s.cur, call.data[s.cur]))
  }

  // ----- what every run guarantees

  ghost function Run<E(!new)>(c: Codec<E>, s: State<E>, calls: seq<Call<E>>, len: nat): (t: State<E>)
    requires c.Valid() && Consistent(c, s, len)
    ensures Consistent(c, t, len)
    decreases |calls|
  {
    if calls == [] then s else Step(c, Run(c, s, calls[..|calls| - 1], len), calls[|calls| - 1], len)
  }

  /** The data shards accepted since the cursor last stood at zero. */
  ghost function Batch<E(!new)>(c: Codec<E>, s: State<E>, calls: seq<Call<E>>, len: nat): (b: seq<seq<E>>)
    requires c.Valid() && Consistent(c, s, len) && s.cur == 0
    ensures IsMatrix(b, Run(c, s, calls, len).cur, len)
    decreases |calls|
  {
    if calls == [] then []
    else
      var last, before := calls[|calls| - 1], Run(c, s, calls[..|calls| - 1], len);
      var batch := Batch(c, s, calls[..|calls| - 1], len);
      if CallError(c, before, last).Some? then batch
      else if last.Reset? || last.ResetForce? then []
      else
        AcceptedShape(c, before, last, len);
        batch + [last.data[before.cur]]
  }

  /** After any calls at all, the parity holds exactly the shards of the current batch,
      whatever the buffers held when the batch began. */
  lemma {:induction false} ParityIsPartial<E(!new)>(c: Codec<E>, s: State<E>, calls: seq<Call<E>>, len: nat)
    requires c.Valid() && Consistent(c, s, len) && s.cur == 0
    ensures var t := Run(c, s, calls, len);
      t.cur > 0 ==> forall r :: 0 <= r < c.parityShards ==>
        t.parity[r] == CombN(c.field, c.ParityRows()[r], Batch(c, s, calls, len), len, t.cur)
    decreases |calls|
  {
    if calls != [] {
      var last, rest := calls[|calls| - 1], calls[..|calls| - 1];
      ParityIsPartial(c, s, rest, len);
      var before := Run(c, s, rest, len);
      if CallError(c, before, last).None? && (last.FeedSeparate? || last.FeedTogether?) {
        AcceptedShape(c, before, last, len);
        AppendShard(c, before.parity, Batch(c, s, rest, len), last.data[before.cur], len);
      }
    }
  }

  lemma AppendShard<E(!new)>(c: Codec<E>, parity: seq<seq<E>>, batch: seq<seq<E>>, shard: seq<E>, len: nat)
    requires c.Valid() && |batch| < c.dataShards && IsMatrix(batch, |batch|, len) && |shard| == len
    requires IsMatrix(parity, c.parityShards, len)
    requires |batch| > 0 ==> forall r :: 0 <= r < c.parityShards ==>
      parity[r] == CombN(c.field, c.ParityRows()[r], batch, len, |batch|)
    ensures forall r :: 0 <= r < c.parityShards ==>
      WithShard(c, parity, |batch|, shard)[r] == CombN(c.field, c.ParityRows()[r], batch + [shard], len, |batch| + 1)
  {
    var f, i := c.field, |batch|;
    forall r | 0 <= r < c.parityShards
      ensures WithShard(c, parity, i, shard)[r] == CombN(f, c.ParityRows()[r], batch + [shard], len, i + 1)
    {
      var row := c.ParityRows()[r];
      CombNAgree(f, row, batch, row, batch + [shard], len, i);
      if i == 0 {
        forall j | 0 <= j < len ensures Scale(f, row[0], shard)[j] == CombN(f, row, batch + [shard], len, 1)[j] {
          f.Laws(f.Mul(row[0], shard[j]), f.zero, f.zero);
        }
      }
    }
  }

  /** When the parity is ready it equals a one-shot encoding of the batch. */
  lemma ReadyMeansEncoded<E(!new)>(c: Codec<E>, s: State<E>, calls: seq<Call<E>>, len: nat)
    requires c.Valid() && Consistent(c, s, len) && s.cur == 0
    requires Run(c, s, calls, len).cur == c.dataShards
    ensures Run(c, s, calls, len).parity == Encoded(c, Batch(c, s, calls, len), len)
  {
    ParityIsPartial(c, s, calls, len);
  }

  /** Two encoders given the same calls agree, stale parity or not: on the cursor always,
      on the parity from the first accepted shard on. */
  lemma {:induction false} StaleParityIrrelevant<E(!new)>(c: Codec<E>, s: State<E>, t: State<E>, calls: seq<Call<E>>, len: nat)
    requires c.Valid() && Consistent(c, s, len) && Consistent(c, t, len) && s.cur == 0 && t.cur == 0
    ensures Run(c, s, calls, len).cur == Run(c, t, calls, len).cur
    ensures Batch(c, s, calls, len) == Batch(c, t, calls, len)
    ensures Run(c, s, calls, len).cur > 0 ==> Run(c, s, calls, len).parity == Run(c, t, calls, len).parity
    decreases |calls|
  {
    if calls != [] {
      var last, rest := calls[|calls| - 1], calls[..|calls| - 1];
      StaleParityIrrelevant(c, s, t, rest, len);
      var a, b := Run(c, s, rest, len), Run(c, t, rest, len);
      SameErrors(c, a, b, last, len);
    }
    ParityIsPartial(c, s, calls, len);
    ParityIsPartial(c, t, calls, len);
    if Run(c, s, calls, len).cur > 0 {
      assert Run(c, s, calls, len).parity == Run(c, t, calls, len).parity;
    }
  }

  /** Refusals depend on lengths, never on contents. */
  lemma SameErrors<E(!new)>(c: Codec<E>, a: State<E>, b: State<E>, call: Call<E>, len: nat)
    requires c.Valid() && Consistent(c, a, len) && Consistent(c, b, len) && a.cur == b.cur
    ensures CallError(c, a, call) == CallError(c, b, call)
  {
    if call.FeedSeparate? {
      assert Lengths(a.parity) == Lengths(b.parity);
    }
    if call.FeedTogether? {
      assert Lengths(call.data + a.parity) == Lengths(call.data + b.parity);
    }
  }

  // ----- when calls are refused, and the ordinary cycle

  /** Resets are refused in the middle of a batch, feeds at its end; otherwise only the lists can be at fault. */
  lemma Refusals<E(!new)>(c: Codec<E>, s: State<E>, call: Call<E>)
    requires c.Valid() && s.cur <= c.dataShards
    ensures call.Reset? ==> CallError(c, s, call) == if 0 < s.cur < c.dataShards then Some(LeftoverShards) else None
    ensures call.ResetForce? ==> CallError(c, s, call) == None
    ensures call.FeedSeparate? || call.FeedTogether? ==> (CallError(c, s, call) == Some(TooManyCalls) <==> s.cur == c.dataShards)
    ensures call.FeedSeparate? || call.FeedTogether? ==> CallError(c, s, call) != Some(LeftoverShards)
    ensures call.FeedSeparate? && s.cur < c.dataShards ==>
      match EncodeSepCheck(c, Lengths(call.data), Lengths(s.parity))
      case None => CallError(c, s, call) == None
      case Some(e) => CallError(c, s, call) == Some(RSError(e))
    ensures call.FeedTogether? && s.cur < c.dataShards ==>
      match EncodeCheck(c, Lengths(call.data + s.parity))
      case None => CallError(c, s, call) == None
      case Some(e) => CallError(c, s, call) == Some(RSError(e))
  {
  }

  /** One full batch of well-formed feeds. */
  ghost predicate FullBatch<E(!new)>(c: Codec<E>, calls: seq<Call<E>>, len: nat) {
    && |calls| == c.dataShards
    && forall i :: 0 <= i < |calls| ==> (calls[i].FeedSeparate? || calls[i].FeedTogether?) && IsMatrix(calls[i].data, c.dataShards, len)
  }

  /** The shards a batch feeds: shard `i` from its `i`-th call. */
  ghost function Fed<E(!new)>(c: Codec<E>, calls: seq<Call<E>>, len: nat): (d: seq<seq<E>>)
    requires FullBatch(c, calls, len)
    ensures IsMatrix(d, c.dataShards, len)
  {
    seq(|calls|, i requires 0 <= i < |calls| => calls[i].data[i])
  }

  /** A well-formed feed is accepted until the batch is complete. */
  lemma FeedAccepted<E(!new)>(c: Codec<E>, s: State<E>, call: Call<E>, len: nat)
    requires c.Valid() && Consistent(c, s, len) && s.cur < c.dataShards && len > 0
    requires (call.FeedSeparate? || call.FeedTogether?) && IsMatrix(call.data, c.dataShards, len)
    ensures CallError(c, s, call).None?
  {
    if call.FeedTogether? {
      var all := call.data + s.parity;
      forall i | 0 <= i < |all| ensures |all[i]| == len {
        assert i >= c.dataShards ==> all[i] == s.parity[i - c.dataShards];
      }
    }
  }

  lemma {:induction false} FeedsAccepted<E(!new)>(c: Codec<E>, s: State<E>, calls: seq<Call<E>>, len: nat, n: nat)
    requires c.Valid() && Consistent(c, s, len) && s.cur == 0 && len > 0 && FullBatch(c, calls, len) && n <= |calls|
    ensures Run(c, s, calls[..n], len).cur == n && Batch(c, s, calls[..n], len) == Fed(c, calls, len)[..n]
  {
    hide WithShard, CallError;
    if n > 0 {
      FeedsAccepted(c, s, calls, len, n - 1);
      FeedAccepted(c, Run(c, s, calls[..n - 1], len), calls[n - 1], len);
      assert calls[..n][..n - 1] == calls[..n - 1] && calls[..n][n - 1] == calls[n - 1];
    }
  }

  /** After one full batch the parity is its encoding. */
  lemma BatchEncodes<E(!new)>(c: Codec<E>, s: State<E>, calls: seq<Call<E>>, len: nat)
    requires c.Valid() && Consistent(c, s, len) && s.cur == 0 && len > 0 && FullBatch(c, calls, len)
    ensures Run(c, s, calls, len) == State(c.dataShards, Encoded(c, Fed(c, calls, len), len))
  {
    FeedsAccepted(c, s, calls, len, |calls|);
    assert calls[..|calls|] == calls && Fed(c, calls, len)[..|calls|] == Fed(c, calls, len);
    ReadyMeansEncoded(c, s, calls, len);
  }

  lemma {:induction false} RunConcat<E(!new)>(c: Codec<E>, s: State<E>, a: seq<Call<E>>, b: seq<Call<E>>, len: nat)
    requires c.Valid() && Consistent(c, s, len)
    ensures Run(c, s, a + b, len) == Run(c, Run(c, s, a, len), b, len)
    decreases |b|
  {
    if b == [] {
      assert a + b == a;
    } else {
      RunConcat(c, s, a, b[..|b| - 1], len);
      assert (a + b)[..|a + b| - 1] == a + b[..|b| - 1];
    }
  }

  /** The ordinary cycle: a full batch is encoded, the reset is accepted, and the next full batch is encoded. */
  lemma EncodeResetEncode<E(!new)>(c: Codec<E>, s: State<E>, first: seq<Call<E>>, second: seq<Call<E>>, len: nat)
    requires c.Valid() && Consistent(c, s, len) && s.cur == 0 && len > 0 && FullBatch(c, first, len) && FullBatch(c, second, len)
    ensures Run(c, s, first, len).parity == Encoded(c, Fed(c, first, len), len)
    ensures CallError(c, Run(c, s, first, len), Reset).None?
    ensures Run(c, s, first + [Reset] + second, len) == State(c.dataShards, Encoded(c, Fed(c, second, len), len))
  {
    BatchEncodes(c, s, first, len);
    RunConcat(c, s, first, [Reset], len);
    RunConcat(c, s, first + [Reset], second, len);
    var t := Run(c, s, first, len);
    assert [Call<E>.Reset][..0] == [] && Run(c, t, [], len) == t;
    Refusals(c, t, Reset);
    BatchEncodes(c, Run(c, s, first + [Reset], len), second, len);
  }

  // ----- the implementation

  class ShardByShard<E(!new)> {
    const codec: Codec<E>
    var curInput: nat

    ghost predicate Valid()
      reads this
    {
      codec.Valid() && curInput <= codec.dataShards
    }

    ghost function Snapshot(parity: seq<array<E>>): State<E>
      reads this, parity
    {
      State(curInput, Views(parity))
    }

    constructor (codec: Codec<E>)
      requires codec.Valid()
      ensures Valid() && this.codec == codec && curInput == 0
    {
      this.codec := codec;
      curInput := 0;
    }

    predicate ParityReady()
      reads this
    {
      curInput == codec.dataShards
    }

    method ResetChecked() returns (e: Option<SbsError>)
      requires Valid()
      modifies this
      ensures Valid() && e == if 0 < old(curInput) < codec.dataShards then Some(LeftoverShards) else None
      ensures curInput == if e.Some? then old(curInput) else 0
    {
      if curInput > 0 && !ParityReady() {
        return Some(LeftoverShards);
      }
      curInput := 0;
      e := None;
    }

    method ResetForced()
      requires Valid()
      modifies this
      ensures Valid() && curInput == 0
    {
      curInput := 0;
    }

    /** Feeds the next data shard, with data and parity in separate lists. */
    method EncodeSeparate(data: seq<seq<E>>, parity: seq<array<E>>) returns (e: Option<SbsError>)
      requires Valid() && Different(parity)
      modifies this, parity
      ensures Valid() && e == CallError(codec, old(Snapshot(parity)), FeedSeparate(data))
      ensures e.Some? ==> Snapshot(parity) == old(Snapshot(parity))
      ensures e.None? ==> Owners(parity, |data[0]|) && |parity| == codec.parityShards
      ensures e.None? ==> Snapshot(parity) == Step(codec, old(Snapshot(parity)), FeedSeparate(data), |data[0]|)
    {
      assert Lengths(Views(parity)) == BufferLengths(parity);
      if ParityReady() {
        return Some(TooManyCalls);
      }
      var check := EncodeSepCheck(codec, Lengths(data), BufferLengths(parity));
      if check.Some? {
        return Some(RSError(check.value));
      }
      forall i | 0 <= i < |parity| ensures parity[i].Length == |data[0]| {
        assert BufferLengths(parity)[i] == Lengths(data)[0];
      }
      assert Lengths(data)[curInput] == Lengths(data)[0];
      var r := EncodeSingleSep(codec, curInput, data[curInput], parity);
      assert r.Ok?;
      curInput := curInput + 1;
      e := None;
    }

    /** Feeds the next data shard from one list of data shards followed by parity shards. */
    method EncodeTogether(shards: seq<array<E>>) returns (e: Option<SbsError>)
      requires Valid() && Different(shards)
      modifies this, shards
      ensures Valid()
      ensures |shards| != codec.TotalShards() ==>
        e == FeedError(codec, old(curInput), EncodeCheck(codec, BufferLengths(shards)))
      ensures e.Some? ==> curInput == old(curInput) && Views(shards) == old(Views(shards))
      ensures |shards| == codec.TotalShards() ==> DataViews(codec, shards) == old(DataViews(codec, shards))
      ensures |shards| == codec.TotalShards() ==>
        e == CallError(codec, old(Snapshot(shards[codec.dataShards..])), FeedTogether(old(DataViews(codec, shards))))
      ensures e.None? ==> |shards| == codec.TotalShards() && Owners(shards, shards[0].Length)
      ensures e.None? ==>
        Snapshot(shards[codec.dataShards..])
        == Step(codec, old(Snapshot(shards[codec.dataShards..])), FeedTogether(old(DataViews(codec, shards))), shards[0].Length)
    {
      hide WithShard, Field.Valid, BufferLengths, Views;
      if |shards| == codec.TotalShards() {
        SplitLengths(codec, shards);
      }
      if ParityReady() {
        return Some(TooManyCalls);
      }
      var check := EncodeCheck(codec, BufferLengths(shards));
      if check.Some? {
        return Some(RSError(check.value));
      }
      AdvanceTogether(shards);
      e := None;
    }

    /** The checked part of `EncodeTogether`. */
    method AdvanceTogether(shards: seq<array<E>>)
      requires Valid() && Different(shards) && !ParityReady() && EncodeCheck(codec, BufferLengths(shards)).None?
      modifies this, shards
      ensures Valid() && Owners(shards, shards[0].Length)
      ensures DataViews(codec, shards) == old(DataViews(codec, shards))
      ensures Snapshot(shards[codec.dataShards..])
           == State(old(curInput) + 1,
                    WithShard(codec, old(Views(shards[codec.dataShards..])), old(curInput), old(DataViews(codec, shards))[old(curInput)]))
    {
      hide WithShard, Field.Valid;
      ghost var parity, data := shards[codec.dataShards..], DataViews(codec, shards);
      var r := EncodeSingle(codec, curInput, shards);
      assert r.Ok?;
      assert Views(parity) == Views(shards)[codec.dataShards..];
      assert data[curInput] == old(shards[curInput][..]);
      curInput := curInput + 1;
    }
  }

  lemma SplitLengths<E(!new)>(c: Codec<E>, shards: seq<array<E>>)
    requires c.Valid() && |shards| == c.TotalShards()
    ensures Lengths(DataViews(c, shards) + Views(shards[c.dataShards..])) == BufferLengths(shards)
  {
  }
}
