/** The public encoding operations, with their argument checks. */
module Encoding {
  import opened Outcomes
  import opened Fields
  import opened Vectors
  import opened Mds
  import opened Codecs
  import opened Coding

  // ----- argument checks, in the order of the source

  function CheckCount(given: nat, expected: nat, few: Error, many: Error): (e: Option<Error>)
    ensures e.None? <==> given == expected
  {
    if given < expected then Some(few) else if given > expected then Some(many) else None
  }

  /** The first error wins. */
  function Then(e: Option<Error>, next: Option<Error>): Option<Error> {
    if e.Some? then e else next
  }

  ghost predicate AllOfLength(lens: seq<nat>, len: nat) {
    forall i :: 0 <= i < |lens| ==> lens[i] == len
  }

  /** Nonempty shards of one length. */
  function CheckSlices(lens: seq<nat>): (e: Option<Error>)
    requires |lens| > 0
    ensures e.None? <==> lens[0] > 0 && AllOfLength(lens, lens[0])
  {
    if lens[0] == 0 then Some(EmptyShard)
    else if exists i :: 0 <= i < |lens| && lens[i] != lens[0] then Some(IncorrectShardSize)
    else None
  }

  function CheckBothSlices(left: seq<nat>, right: seq<nat>): (e: Option<Error>)
    requires |left| > 0 && |right| > 0
    ensures e.None? <==> left[0] > 0 && AllOfLength(left, left[0]) && AllOfLength(right, left[0])
  {
    var both := Then(CheckSlices(left), CheckSlices(right));
    if both.Some? then both else if left[0] != right[0] then Some(IncorrectShardSize) else None
  }

  function Lengths<E>(shards: seq<seq<E>>): (r: seq<nat>)
    ensures |r| == |shards| && forall i :: 0 <= i < |r| ==> r[i] == |shards[i]|
  {
    seq(|shards|, i requires 0 <= i < |shards| => |shards[i]|)
  }

  function BufferLengths<E>(buffers: seq<array<E>>): (r: seq<nat>)
    ensures |r| == |buffers| && forall i :: 0 <= i < |r| ==> r[i] == buffers[i].Length
  {
    seq(|buffers|, i requires 0 <= i < |buffers| => buffers[i].Length)
  }

  ghost predicate Different<E>(buffers: seq<array<E>>) {
    forall i, j :: 0 <= i < j < |buffers| ==> buffers[i] != buffers[j]
  }

  /** The checks of `encode_sep`. */
  function EncodeSepCheck<E(!new)>(c: Codec<E>, data: seq<nat>, parity: seq<nat>): (e: Option<Error>)
    requires c.dataShards > 0 && c.parityShards > 0
    ensures e.None? ==> |data| == c.dataShards && |parity| == c.parityShards
    ensures e.None? ==> data[0] > 0 && AllOfLength(data, data[0]) && AllOfLength(parity, data[0])
    ensures (|data| == c.dataShards && |parity| == c.parityShards && data[0] > 0
             && AllOfLength(data, data[0]) && AllOfLength(parity, data[0])) ==> e.None?
  {
    var counts := Then(CheckCount(|data|, c.dataShards, TooFewDataShards, TooManyDataShards),
                       CheckCount(|parity|, c.parityShards, TooFewParityShards, TooManyParityShards));
    if counts.Some? then counts else CheckBothSlices(data, parity)
  }

  // ----- which error a refused call gives

  /** A wrong number of shards is reported as such. */
  ghost predicate CountReported(e: Option<Error>, given: nat, expected: nat, few: Error, many: Error) {
    (given < expected ==> e == Some(few)) && (given > expected ==> e == Some(many))
  }

  /** An empty first shard, else the first shard of another length. */
  ghost predicate LengthsReported(e: Option<Error>, lens: seq<nat>)
    requires |lens| > 0
  {
    e == if lens[0] == 0 then Some(EmptyShard)
         else if forall i :: 0 <= i < |lens| ==> lens[i] == lens[0] then None
         else Some(IncorrectShardSize)
  }

  /** The left list is looked at before the right one, and only then are the two compared. */
  ghost predicate BothReported(e: Option<Error>, left: seq<nat>, right: seq<nat>)
    requires |left| > 0 && |right| > 0
  {
    e == if left[0] == 0 || ((forall i :: 0 <= i < |left| ==> left[i] == left[0]) && right[0] == 0) then Some(EmptyShard)
         else if (forall i :: 0 <= i < |left| ==> left[i] == left[0]) && (forall i :: 0 <= i < |right| ==> right[i] == left[0]) then None
         else Some(IncorrectShardSize)
  }

  lemma BothSlicesErrors(left: seq<nat>, right: seq<nat>)
    requires |left| > 0 && |right| > 0
    ensures BothReported(CheckBothSlices(left, right), left, right)
  {
    if AllOfLength(right, left[0]) {
      assert AllOfLength(right, right[0]);
    }
  }

  lemma EncodeSepErrors<E(!new)>(c: Codec<E>, data: seq<nat>, parity: seq<nat>)
    requires c.dataShards > 0 && c.parityShards > 0
    ensures var e := EncodeSepCheck(c, data, parity);
      && CountReported(e, |data|, c.dataShards, TooFewDataShards, TooManyDataShards)
      && (|data| == c.dataShards ==> CountReported(e, |parity|, c.parityShards, TooFewParityShards, TooManyParityShards))
      && (|data| == c.dataShards && |parity| == c.parityShards ==> BothReported(e, data, parity))
  {
    if |data| == c.dataShards && |parity| == c.parityShards {
      BothSlicesErrors(data, parity);
    }
  }

  lemma EncodeErrors<E(!new)>(c: Codec<E>, lens: seq<nat>)
    requires c.TotalShards() > 0
    ensures var e := EncodeCheck(c, lens);
      && CountReported(e, |lens|, c.dataShards + c.parityShards, TooFewShards, TooManyShards)
      && (|lens| == c.dataShards + c.parityShards ==> LengthsReported(e, lens))
  {
  }

  lemma EncodeSingleErrors<E(!new)>(c: Codec<E>, i: nat, len: nat, parity: seq<nat>)
    requires c.parityShards > 0
    ensures var e := EncodeSingleCheck(c, i, len, parity);
      && (i >= c.dataShards ==> e == Some(InvalidIndex))
      && (i < c.dataShards ==> CountReported(e, |parity|, c.parityShards, TooFewParityShards, TooManyParityShards))
      && (i < c.dataShards && |parity| == c.parityShards ==>
            e == if parity[0] == 0 then Some(EmptyShard)
                 else if forall j :: 0 <= j < |parity| ==> parity[j] == len then None else Some(IncorrectShardSize))
  {
  }

  lemma EncodeSingleListErrors<E(!new)>(c: Codec<E>, i: nat, lens: seq<nat>)
    requires c.TotalShards() > 0
    ensures var e := EncodeSingleListCheck(c, i, lens);
      && (i >= c.dataShards ==> e == Some(InvalidIndex))
      && (i < c.dataShards ==> CountReported(e, |lens|, c.dataShards + c.parityShards, TooFewShards, TooManyShards))
      && (i < c.dataShards && |lens| == c.dataShards + c.parityShards ==> LengthsReported(e, lens))
  {
    EncodeErrors(c, lens);
  }

  // ----- what encoding means

  /** The parity shards of `data`: the parity rows times the data. */
  ghost function Encoded<E(!new)>(c: Codec<E>, data: seq<seq<E>>, len: nat): (p: seq<seq<E>>)
    requires c.Valid() && IsMatrix(data, c.dataShards, len)
    ensures IsMatrix(p, c.parityShards, len)
  {
    MatMul(c.field, c.ParityRows(), data, len)
  }

  // ----- the single-parity path

  /** Copies the first shard and adds the others: the all-ones combination. */
  method EncodeFastOneParity<E(!new)>(f: Field<E>, data: seq<seq<E>>, parity: array<E>)
    requires f.Valid() && |data| > 0 && IsMatrix(data, |data|, parity.Length)
    modifies parity
    ensures parity[..] == Comb(f, Ones(f, |data|), data, parity.Length)
  {
    var w, ones := parity.Length, Ones(f, |data|);
    for j := 0 to w
      invariant forall l :: 0 <= l < j ==> parity[l] == data[0][l]
    {
      parity[j] := data[0][j];
    }
    OnesStep(f, data, w, 0);
    forall j | 0 <= j < w ensures parity[j] == CombN(f, ones, data, w, 1)[j] {
      f.Laws(data[0][j], f.zero, f.zero);
    }
    for i := 1 to |data|
      invariant parity[..] == CombN(f, ones, data, w, i)
    {
      AddInto(f, data[i], parity);
      OnesStep(f, data, w, i);
    }
  }

  lemma OnesStep<E(!new)>(f: Field<E>, data: seq<seq<E>>, w: nat, i: nat)
    requires f.Valid() && IsMatrix(data, |data|, w) && i < |data|
    ensures CombN(f, Ones(f, |data|), data, w, i + 1) == AddVec(f, CombN(f, Ones(f, |data|), data, w, i), data[i])
  {
    forall j | 0 <= j < w ensures Scale(f, f.one, data[i])[j] == data[i][j] {
      f.Laws(data[i][j], f.one, f.one);
    }
    assert Scale(f, f.one, data[i]) == data[i];
  }

  method AddInto<E(!new)>(f: Field<E>, input: seq<E>, out: array<E>)
    requires |input| == out.Length
    modifies out
    ensures out[..] == AddVec(f, old(out[..]), input)
  {
    for j := 0 to |input|
      invariant forall l :: 0 <= l < j ==> out[l] == f.Add(old(out[l]), input[l])
      invariant forall l :: j <= l < out.Length ==> out[l] == old(out[l])
    {
      out[j] := f.Add(out[j], input[j]);
    }
  }

  // ----- encode

  /** Encoding on checked arguments: the fast path or the matrix. */
  method EncodeChecked<E(!new)>(c: Codec<E>, data: seq<seq<E>>, parity: seq<array<E>>, len: nat)
    requires c.Valid() && IsMatrix(data, c.dataShards, len) && |parity| == c.parityShards && Owners(parity, len)
    modifies parity
    ensures Views(parity) == Encoded(c, data, len)
  {
    if c.FastOneParityEnabled() {
      EncodeFastOneParity(c.field, data, parity[0]);
      assert c.ParityRows()[0] == Ones(c.field, c.dataShards);
      assert Views(parity) == Encoded(c, data, len);
    } else {
      CodeSomeSlices(c.field, c.ParityRows(), data, parity, len);
    }
  }

  method EncodeSep<E(!new)>(c: Codec<E>, data: seq<seq<E>>, parity: seq<array<E>>) returns (r: Result<(), Error>)
    requires c.Valid() && Different(parity)
    modifies parity
    ensures r.Err? <==> EncodeSepCheck(c, Lengths(data), BufferLengths(parity)).Some?
    ensures r.Err? ==> r.error == EncodeSepCheck(c, Lengths(data), BufferLengths(parity)).value
    ensures r.Err? ==> Views(parity) == old(Views(parity))
    ensures r.Ok? ==> IsMatrix(data, c.dataShards, |data[0]|) && Views(parity) == Encoded(c, data, |data[0]|)
  {
    var check := EncodeSepCheck(c, Lengths(data), BufferLengths(parity));
    if check.Some? {
      return Err(check.value);
    }
    assert Lengths(data)[0] == |data[0]|;
    forall i | 0 <= i < |data| ensures |data[i]| == |data[0]| {
      assert Lengths(data)[i] == |data[i]|;
    }
    forall i | 0 <= i < |parity| ensures parity[i].Length == |data[0]| {
      assert BufferLengths(parity)[i] == parity[i].Length;
    }
    EncodeChecked(c, data, parity, |data[0]|);
    r := Ok(());
  }

  /** The contents of the data shards at the front of a full shard list. */
  ghost function DataViews<E(!new)>(c: Codec<E>, shards: seq<array<E>>): seq<seq<E>>
    requires c.dataShards <= |shards|
    reads shards
  {
    Views(shards)[..c.dataShards]
  }

  function EncodeCheck<E(!new)>(c: Codec<E>, lens: seq<nat>): (e: Option<Error>)
    requires c.TotalShards() > 0
    ensures e.None? <==> |lens| == c.TotalShards() && lens[0] > 0 && AllOfLength(lens, lens[0])
  {
    var count := CheckCount(|lens|, c.TotalShards(), TooFewShards, TooManyShards);
    if count.Some? then count else CheckSlices(lens)
  }

  /** Encoding in place: the data shards stay, the parity shards become their encoding. */
  method Encode<E(!new)>(c: Codec<E>, shards: seq<array<E>>) returns (r: Result<(), Error>)
    requires c.Valid() && Different(shards)
    modifies shards
    ensures r.Err? <==> EncodeCheck(c, BufferLengths(shards)).Some?
    ensures r.Err? ==> r.error == EncodeCheck(c, BufferLengths(shards)).value && Views(shards) == old(Views(shards))
    ensures r.Ok? ==> |shards| == c.TotalShards() && Owners(shards, shards[0].Length)
    ensures r.Ok? ==> Views(shards) == old(DataViews(c, shards)) + Encoded(c, old(DataViews(c, shards)), shards[0].Length)
  {
    hide Encoded, EncodeCheck, EncodeSepCheck, Field.Valid, Systematic, Different, Owners, Lengths, BufferLengths, AllOfLength;
    var check := EncodeCheck(c, BufferLengths(shards));
    if check.Some? {
      return Err(check.value);
    }
    CheckedOwners(c, shards);
    PartsDiffer(shards, c.dataShards);
    var data := ReadViews(shards[..c.dataShards]);
    var parity := shards[c.dataShards..];
    EncodeSplit(c, shards, Lengths(data), BufferLengths(parity));
    r := EncodeSep(c, data, parity);
    assert Views(shards[..c.dataShards]) == data;
    SplitViews(shards, c.dataShards);
  }

  /** Nonempty buffers of one length that pass the checks, one for each shard. */
  lemma CheckedOwners<E(!new)>(c: Codec<E>, shards: seq<array<E>>)
    requires c.Valid() && Different(shards) && EncodeCheck(c, BufferLengths(shards)).None?
    ensures 0 < c.dataShards < |shards| == c.TotalShards() && shards[0].Length > 0 && Owners(shards, shards[0].Length)
    ensures DataViews(c, shards) == Views(shards[..c.dataShards])
  {
    hide Field.Valid, Systematic, EncodeCheck;
    forall i | 0 <= i < |shards| ensures shards[i].Length == shards[0].Length {
      assert BufferLengths(shards)[i] == BufferLengths(shards)[0];
    }
  }

  lemma PartsDiffer<E>(shards: seq<array<E>>, k: nat)
    requires Different(shards) && k <= |shards|
    ensures Different(shards[..k]) && Different(shards[k..])
    ensures forall i :: 0 <= i < k ==> shards[..k][i] !in shards[k..]
  {
  }

  lemma SplitViews<E>(shards: seq<array<E>>, k: nat)
    requires k <= |shards|
    ensures Views(shards) == Views(shards[..k]) + Views(shards[k..])
  {
  }

  /** A full list that passes the combined checks passes the separate ones. */
  lemma EncodeSplit<E(!new)>(c: Codec<E>, shards: seq<array<E>>, data: seq<nat>, parity: seq<nat>)
    requires c.Valid() && EncodeCheck(c, BufferLengths(shards)).None?
    requires |data| == c.dataShards && |parity| == c.parityShards
    requires forall i :: 0 <= i < |data| ==> data[i] == shards[i].Length
    requires forall i :: 0 <= i < |parity| ==> parity[i] == shards[c.dataShards + i].Length
    ensures EncodeSepCheck(c, data, parity).None?
  {
    var lens := BufferLengths(shards);
    assert forall i :: 0 <= i < |shards| ==> lens[i] == shards[i].Length == lens[0];
  }

  method ReadViews<E>(buffers: seq<array<E>>) returns (v: seq<seq<E>>)
    ensures v == Views(buffers)
  {
    v := [];
    for i := 0 to |buffers|
      invariant v == Views(buffers)[..i]
    {
      v := v + [buffers[i][..]];
    }
  }

  // ----- one data shard at a time

  function EncodeSingleCheck<E(!new)>(c: Codec<E>, i: nat, len: nat, parity: seq<nat>): (e: Option<Error>)
    requires c.parityShards > 0
    ensures e.None? <==> i < c.dataShards && |parity| == c.parityShards && len > 0 && AllOfLength(parity, len)
  {
    if i >= c.dataShards then Some(InvalidIndex)
    else
      var count := CheckCount(|parity|, c.parityShards, TooFewParityShards, TooManyParityShards);
      if count.Some? then count
      else
        var slices := CheckSlices(parity);
        if slices.Some? then slices else if parity[0] != len then Some(IncorrectShardSize) else None
  }

  /** The parity after data shard `i`: the first shard overwrites, the others accumulate. */
  function WithShard<E(!new)>(c: Codec<E>, parity: seq<seq<E>>, i: nat, shard: seq<E>): (p: seq<seq<E>>)
    requires IsMatrix(parity, c.parityShards, |shard|) && IsMatrix(c.matrix, c.TotalShards(), c.dataShards) && i < c.dataShards
    ensures IsMatrix(p, c.parityShards, |shard|)
    ensures forall r {:trigger p[r]} :: 0 <= r < c.parityShards ==>
      p[r] == (if i == 0 then Scale(c.field, c.ParityRows()[r][0], shard)
               else AddVec(c.field, parity[r], Scale(c.field, c.ParityRows()[r][i], shard)))
  {
    seq(c.parityShards, r requires 0 <= r < c.parityShards =>
      if i == 0 then Scale(c.field, c.ParityRows()[r][0], shard)
      else AddVec(c.field, parity[r], Scale(c.field, c.ParityRows()[r][i], shard)))
  }

  lemma CodedWhole<E(!new)>(c: Codec<E>, i: nat, single: seq<E>, was: seq<seq<E>>)
    requires c.Valid() && i < c.dataShards && IsMatrix(was, c.parityShards, |single|)
    ensures forall r :: 0 <= r < c.parityShards ==>
      CodedRange(c.field, c.ParityRows()[r][i], i == 0, was[r], single, 0, |single|) == WithShard(c, was, i, single)[r]
  {
    forall r | 0 <= r < c.parityShards
      ensures CodedRange(c.field, c.ParityRows()[r][i], i == 0, was[r], single, 0, |single|) == WithShard(c, was, i, single)[r]
    {
      assert single[0..|single|] == single && was[r][0..|single|] == was[r];
    }
  }

  /** Applies data shard `i`: the first overwrites the parity, the others accumulate. */
  method EncodeSingleSep<E(!new)>(c: Codec<E>, i: nat, single: seq<E>, parity: seq<array<E>>) returns (r: Result<(), Error>)
    requires c.Valid() && Different(parity)
    modifies parity
    ensures r.Err? <==> EncodeSingleCheck(c, i, |single|, BufferLengths(parity)).Some?
    ensures r.Err? ==> r.error == EncodeSingleCheck(c, i, |single|, BufferLengths(parity)).value
    ensures r.Err? ==> Views(parity) == old(Views(parity))
    ensures r.Ok? ==> Owners(parity, |single|)
    ensures r.Ok? ==> Views(parity) == WithShard(c, old(Views(parity)), i, single)
  {
    hide CodedRange, Field.Valid;
    var check := EncodeSingleCheck(c, i, |single|, BufferLengths(parity));
    if check.Some? {
      return Err(check.value);
    }
    forall s | 0 <= s < |parity| ensures parity[s].Length == |single| {
      assert BufferLengths(parity)[s] == |single|;
    }
    CodedWhole(c, i, single, Views(parity));
    ghost var was := Views(parity);
    CodeSingleSliceRange(c.field, c.ParityRows(), i, single, parity, 0, |single|);
    assert Views(parity) == WithShard(c, was, i, single);
    r := Ok(());
  }

  function EncodeSingleListCheck<E(!new)>(c: Codec<E>, i: nat, lens: seq<nat>): (e: Option<Error>)
    requires c.TotalShards() > 0
    ensures e.None? <==> i < c.dataShards && |lens| == c.TotalShards() && lens[0] > 0 && AllOfLength(lens, lens[0])
  {
    if i >= c.dataShards then Some(InvalidIndex) else EncodeCheck(c, lens)
  }

  /** The variant on one list: only the parity shards change. */
  method EncodeSingle<E(!new)>(c: Codec<E>, i: nat, shards: seq<array<E>>) returns (r: Result<(), Error>)
    requires c.Valid() && Different(shards)
    modifies shards
    ensures r.Err? <==> EncodeSingleListCheck(c, i, BufferLengths(shards)).Some?
    ensures r.Err? ==> r.error == EncodeSingleListCheck(c, i, BufferLengths(shards)).value
    ensures r.Err? ==> Views(shards) == old(Views(shards))
    ensures r.Ok? ==> Owners(shards, shards[0].Length)
    ensures r.Ok? ==>
      Views(shards) == old(DataViews(c, shards)) + WithShard(c, old(Views(shards[c.dataShards..])), i, old(shards[i][..]))
  {
    hide WithShard, EncodeCheck, EncodeSingleCheck, Field.Valid, Systematic, Different;
    var check := EncodeSingleListCheck(c, i, BufferLengths(shards));
    if check.Some? {
      return Err(check.value);
    }
    CheckedOwners(c, shards);
    PartsDiffer(shards, c.dataShards);
    var parity := shards[c.dataShards..];
    ghost var kept := Views(shards[..c.dataShards]);
    assert forall s :: 0 <= s < |parity| ==> BufferLengths(parity)[s] == shards[0].Length;
    r := EncodeSingleSep(c, i, shards[i][..], parity);
    assert Views(shards[..c.dataShards]) == kept;
    SplitViews(shards, c.dataShards);
  }
}
