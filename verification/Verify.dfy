/** Verification by re-encoding, and what it detects. */
module Verification {
  import opened Outcomes
  import opened Fields
  import opened Vectors
  import opened Polynomials
  import opened Kernels
  import opened Mds
  import opened Codecs
  import opened Coding
  import opened Encoding

  // ----- codewords

  /** A full shard list whose parity is the encoding of its data. */
  ghost predicate IsCodeword<E(!new)>(c: Codec<E>, shards: seq<seq<E>>, len: nat)
    requires c.Valid()
  {
    && IsMatrix(shards, c.TotalShards(), len)
    && shards[c.dataShards..] == Encoded(c, shards[..c.dataShards], len)
  }

  /** A codeword is the whole systematic matrix times its data shards. */
  lemma CodewordIsProduct<E(!new)>(c: Codec<E>, shards: seq<seq<E>>, len: nat)
    requires c.Valid() && IsMatrix(shards, c.TotalShards(), len)
    ensures IsCodeword(c, shards, len) <==> shards == MatMul(c.field, c.matrix, shards[..c.dataShards], len)
  {
    var data := shards[..c.dataShards];
    ProductSplits(c, data, len);
    assert shards == data + shards[c.dataShards..];
    assert (data + Encoded(c, data, len))[c.dataShards..] == Encoded(c, data, len);
  }

  /** The systematic matrix returns the data followed by its encoding. */
  lemma ProductSplits<E(!new)>(c: Codec<E>, data: seq<seq<E>>, len: nat)
    requires c.Valid() && IsMatrix(data, c.dataShards, len)
    ensures MatMul(c.field, c.matrix, data, len) == data + Encoded(c, data, len)
  {
    var full := MatMul(c.field, c.matrix, data, len);
    forall i | 0 <= i < c.TotalShards() ensures full[i] == (data + Encoded(c, data, len))[i] {
      if i < c.dataShards {
        CombUnit(c.field, data, len, i);
      } else {
        assert Encoded(c, data, len)[i - c.dataShards] == Comb(c.field, c.ParityRows()[i - c.dataShards], data, len);
      }
    }
  }

  // ----- the distance of an MDS code

  /** Two data matrices whose encodings agree on `k` shards are equal. */
  lemma AgreementDetermines<E(!new)>(f: Field<E>, g: seq<seq<E>>, n: nat, k: nat, d: seq<seq<E>>, e: seq<seq<E>>, len: nat, idx: seq<nat>)
    requires f.Valid() && IsMds(f, g, n, k) && IsMatrix(d, k, len) && IsMatrix(e, k, len) && Selection(idx, n, k)
    requires forall i :: 0 <= i < k ==> Comb(f, g[idx[i]], d, len) == Comb(f, g[idx[i]], e, len)
    ensures d == e
  {
    var s := seq(k, i requires 0 <= i < k => g[idx[i]]);
    forall x: seq<E> | x in Kernel(f, s, k) ensures IsZero(f, x) {
      assert InKernel(f, s, x);
      forall i | 0 <= i < k ensures Dot(f, g[idx[i]], x) == f.zero {
        assert Dot(f, s[i], x) == f.zero;
      }
      assert Kills(f, g, idx, x);
    }
    KernelDetermines(f, s, d, e, k, len);
  }

  /** Any `k` members of a set, as a selection. */
  lemma {:induction false} Pick(s: set<nat>, k: nat) returns (idx: seq<nat>)
    requires |s| >= k
    ensures |idx| == k && Injective(idx) && forall i :: 0 <= i < k ==> idx[i] in s
    decreases k
  {
    if k == 0 {
      idx := [];
    } else {
      var x :| x in s;
      var rest := Pick(s - {x}, k - 1);
      idx := rest + [x];
    }
  }

  /** Codewords that differ in at most `p` shards are equal: the distance is `p + 1`. */
  lemma MinimumDistance<E(!new)>(c: Codec<E>, s: seq<seq<E>>, t: seq<seq<E>>, len: nat, changed: set<nat>)
    requires c.Valid() && c.Mds() && IsCodeword(c, s, len) && IsCodeword(c, t, len)
    requires |changed| <= c.parityShards
    requires forall i :: 0 <= i < c.TotalShards() && i !in changed ==> s[i] == t[i]
    ensures s == t
  {
    hide Field.Valid, IsMds, Comb, Encoded;
    var k, n := c.dataShards, c.TotalShards();
    var idx := KeptSelection(n, k, changed);
    CodewordIsProduct(c, s, len);
    CodewordIsProduct(c, t, len);
    forall i | 0 <= i < k ensures Comb(c.field, c.matrix[idx[i]], s[..k], len) == Comb(c.field, c.matrix[idx[i]], t[..k], len) {
      assert MatMul(c.field, c.matrix, s[..k], len)[idx[i]] == MatMul(c.field, c.matrix, t[..k], len)[idx[i]];
    }
    AgreementDetermines(c.field, c.matrix, n, k, s[..k], t[..k], len, idx);
  }

  /** At most `n - k` changes leave `k` shards alone. */
  lemma KeptSelection(n: nat, k: nat, changed: set<nat>) returns (idx: seq<nat>)
    requires k <= n && |changed| <= n - k
    ensures Selection(idx, n, k) && forall i :: 0 <= i < k ==> idx[i] !in changed
  {
    var kept := UpTo(n) - changed;
    assert |UpTo(n)| <= |kept| + |changed| by {
      assert UpTo(n) <= kept + changed;
      SubsetSize(UpTo(n), kept + changed);
    }
    idx := Pick(kept, k);
  }

  lemma {:induction false} SubsetSize<T>(a: set<T>, b: set<T>)
    requires a <= b
    ensures |a| <= |b|
  {
    if a != {} {
      var x :| x in a;
      SubsetSize(a - {x}, b - {x});
    }
  }

  /** Damage to at least one and at most `p` shards of a codeword is always noticed. */
  lemma DamageIsDetected<E(!new)>(c: Codec<E>, s: seq<seq<E>>, t: seq<seq<E>>, len: nat, changed: set<nat>)
    requires c.Valid() && c.Mds() && IsCodeword(c, s, len) && IsMatrix(t, c.TotalShards(), len)
    requires |changed| <= c.parityShards && s != t
    requires forall i :: 0 <= i < c.TotalShards() && i !in changed ==> s[i] == t[i]
    ensures !IsCodeword(c, t, len)
  {
    if IsCodeword(c, t, len) {
      MinimumDistance(c, s, t, len, changed);
    }
  }

  /** The bound is sharp: two codewords can differ in `p + 1` shards. */
  lemma DistanceIsAttained<E(!new)>(c: Codec<E>, len: nat) returns (s: seq<seq<E>>, t: seq<seq<E>>, changed: set<nat>)
    requires c.Valid() && len > 0
    ensures IsCodeword(c, s, len) && IsCodeword(c, t, len) && s != t
    ensures |changed| == c.parityShards + 1 && forall i :: i in changed ==> i < c.TotalShards()
    ensures forall i :: 0 <= i < c.TotalShards() && i !in changed ==> s[i] == t[i]
  {
    hide Encoded, Field.Valid, IsCodeword;
    var blank, marked := OneMark(c, len);
    s, t := blank + Encoded(c, blank, len), marked + Encoded(c, marked, len);
    EncodedIsCodeword(c, blank, len);
    EncodedIsCodeword(c, marked, len);
    changed := DataAndParity(c.dataShards, c.parityShards);
  }

  lemma EncodedIsCodeword<E(!new)>(c: Codec<E>, data: seq<seq<E>>, len: nat)
    requires c.Valid() && IsMatrix(data, c.dataShards, len)
    ensures IsCodeword(c, data + Encoded(c, data, len), len)
  {
    var s := data + Encoded(c, data, len);
    assert s[..c.dataShards] == data && s[c.dataShards..] == Encoded(c, data, len);
  }

  /** Two data matrices that differ in the first shard only. */
  lemma OneMark<E(!new)>(c: Codec<E>, len: nat) returns (blank: seq<seq<E>>, marked: seq<seq<E>>)
    requires c.Valid() && len > 0
    ensures IsMatrix(blank, c.dataShards, len) && IsMatrix(marked, c.dataShards, len) && c.dataShards > 0
    ensures blank[0] != marked[0] && forall i :: 1 <= i < c.dataShards ==> blank[i] == marked[i]
  {
    blank := seq(c.dataShards, _ => Zeros(c.field, len));
    marked := blank[0 := Ones(c.field, len)];
    assert blank[0][0] != marked[0][0];
  }

  /** The first data shard and all parity shards. */
  lemma DataAndParity(k: nat, p: nat) returns (s: set<nat>)
    requires k > 0
    ensures |s| == p + 1
    ensures forall i: nat :: i in s <==> i == 0 || k <= i < k + p
  {
    var parity := UpTo(k + p) - UpTo(k);
    assert UpTo(k + p) * UpTo(k) == UpTo(k);
    assert 0 !in parity;
    s := parity + {0};
  }

  // ----- the operations

  /** Re-encodes into the buffers and compares. */
  method CheckClassicParity<E(==, !new)>(c: Codec<E>, inputs: seq<seq<E>>, toCheck: seq<seq<E>>, buffer: seq<array<E>>, len: nat)
    returns (same: bool)
    requires c.Valid() && IsMatrix(inputs, c.dataShards, len) && IsMatrix(toCheck, c.parityShards, len)
    requires |buffer| == c.parityShards && Owners(buffer, len)
    modifies buffer
    ensures same <==> toCheck == Encoded(c, inputs, len)
  {
    EncodeChecked(c, inputs, buffer, len);
    var i := 0;
    while i < |buffer|
      invariant i <= |buffer|
      invariant forall j :: 0 <= j < i ==> toCheck[j] == Encoded(c, inputs, len)[j]
    {
      assert Views(buffer)[i] == buffer[i][..];
      if buffer[i][..] != toCheck[i] {
        return false;
      }
      i := i + 1;
    }
    same := true;
  }

  function VerifyCheck<E(!new)>(c: Codec<E>, lens: seq<nat>, buffers: seq<nat>): (e: Option<Error>)
    requires c.dataShards > 0 && c.parityShards > 0
    ensures e.None? <==> |lens| == c.TotalShards() && |buffers| == c.parityShards
                         && lens[0] > 0 && AllOfLength(lens, lens[0]) && AllOfLength(buffers, lens[0])
  {
    var counts := Then(CheckCount(|lens|, c.TotalShards(), TooFewShards, TooManyShards),
                       CheckCount(|buffers|, c.parityShards, TooFewBufferShards, TooManyBufferShards));
    if counts.Some? then counts else CheckBothSlices(lens, buffers)
  }

  lemma VerifyErrors<E(!new)>(c: Codec<E>, lens: seq<nat>, buffers: seq<nat>)
    requires c.dataShards > 0 && c.parityShards > 0
    ensures var e := VerifyCheck(c, lens, buffers);
      && CountReported(e, |lens|, c.dataShards + c.parityShards, TooFewShards, TooManyShards)
      && (|lens| == c.dataShards + c.parityShards ==>
            CountReported(e, |buffers|, c.parityShards, TooFewBufferShards, TooManyBufferShards))
      && (|lens| == c.dataShards + c.parityShards && |buffers| == c.parityShards ==> BothReported(e, lens, buffers))
  {
    if |lens| == c.TotalShards() && |buffers| == c.parityShards {
      BothSlicesErrors(lens, buffers);
    }
  }

  /** True exactly on codewords, whatever the scratch buffers held. */
  method VerifyWithBuffer<E(==, !new)>(c: Codec<E>, slices: seq<seq<E>>, buffer: seq<array<E>>) returns (r: Result<bool, Error>)
    requires c.Valid() && Different(buffer)
    modifies buffer
    ensures r.Err? <==> VerifyCheck(c, Lengths(slices), BufferLengths(buffer)).Some?
    ensures r.Err? ==> r.error == VerifyCheck(c, Lengths(slices), BufferLengths(buffer)).value
    ensures r.Err? ==> Views(buffer) == old(Views(buffer))
    ensures r.Ok? ==> |slices| > 0 && (r.value <==> IsCodeword(c, slices, |slices[0]|))
  {
    var check := VerifyCheck(c, Lengths(slices), BufferLengths(buffer));
    if check.Some? {
      return Err(check.value);
    }
    var len := |slices[0]|;
    forall i | 0 <= i < |slices| ensures |slices[i]| == len {
      assert Lengths(slices)[i] == Lengths(slices)[0];
    }
    forall i | 0 <= i < |buffer| ensures buffer[i].Length == len {
      assert BufferLengths(buffer)[i] == Lengths(slices)[0];
    }
    var same := CheckClassicParity(c, slices[..c.dataShards], slices[c.dataShards..], buffer, len);
    r := Ok(same);
  }

  /** The variant that owns its zeroed scratch. */
  method Verify<E(==, !new)>(c: Codec<E>, slices: seq<seq<E>>) returns (r: Result<bool, Error>)
    requires c.Valid()
    ensures r.Err? <==> EncodeCheck(c, Lengths(slices)).Some?
    ensures r.Err? ==> r.error == EncodeCheck(c, Lengths(slices)).value
    ensures r.Ok? ==> |slices| > 0 && (r.value <==> IsCodeword(c, slices, |slices[0]|))
  {
    var check := EncodeCheck(c, Lengths(slices));
    if check.Some? {
      return Err(check.value);
    }
    var len := |slices[0]|;
    forall i | 0 <= i < |slices| ensures |slices[i]| == len {
      assert Lengths(slices)[i] == Lengths(slices)[0];
    }
    var scratch := ZeroBuffers(c.field, c.parityShards, len);
    var same := CheckClassicParity(c, slices[..c.dataShards], slices[c.dataShards..], scratch, len);
    r := Ok(same);
  }

  method ZeroBuffers<E(!new)>(f: Field<E>, count: nat, len: nat) returns (buffers: seq<array<E>>)
    ensures |buffers| == count && Owners(buffers, len)
    ensures forall i :: 0 <= i < count ==> fresh(buffers[i]) && buffers[i][..] == Zeros(f, len)
  {
    buffers := [];
    for i := 0 to count
      invariant |buffers| == i && Owners(buffers, len)
      invariant forall j :: 0 <= j < i ==> fresh(buffers[j]) && buffers[j][..] == Zeros(f, len)
    {
      var buffer := new E[len](_ => f.zero);
      buffers := buffers + [buffer];
    }
  }
}
