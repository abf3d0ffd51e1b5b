/** The slice multiply over interleaved tower elements: split into planes, multiply in the base
    field, and interleave again, chunk by chunk. */
module TowerSlices {
  import opened Fields
  import opened Slices
  import opened Towers

  const GF16_CHUNK: nat := 1024

  /** Element `i` of an interleaved slice. */
  function At<E>(flat: seq<E>, i: nat): Pair<E>
    requires 2 * i + 1 < |flat|
  {
    (flat[2 * i], flat[2 * i + 1])
  }

  /** What a slice multiply leaves in one element. */
  function Expected<E(==, !new)>(t: Tower<E>, elem: Pair<E>, accumulate: bool, was: Pair<E>, input: Pair<E>): Pair<E> {
    if accumulate then t.Add(was, t.Mul(elem, input)) else t.Mul(elem, input)
  }

  /** The first `n` elements are multiplied, the others untouched. */
  ghost predicate Multiplied<E(!new)>(t: Tower<E>, elem: Pair<E>, accumulate: bool, input: seq<E>, was: seq<E>, now: seq<E>, len: nat, n: nat)
    requires |input| == |was| == |now| == 2 * len && n <= len
  {
    && (forall i {:trigger At(now, i)} :: 0 <= i < n ==> At(now, i) == Expected(t, elem, accumulate, At(was, i), At(input, i)))
    && (forall i {:trigger At(now, i)} :: n <= i < len ==> At(now, i) == At(was, i))
  }

  // ----- layout

  method DeinterleaveScalar<E>(src: seq<E>, even: array<E>, odd: array<E>, n: nat)
    requires |src| == 2 * n && n <= even.Length && n <= odd.Length && even != odd
    modifies even, odd
    ensures forall i :: 0 <= i < n ==> (even[i], odd[i]) == At(src, i)
  {
    for i := 0 to n
      invariant forall j :: 0 <= j < i ==> (even[j], odd[j]) == At(src, j)
    {
      even[i] := src[2 * i];
      odd[i] := src[2 * i + 1];
    }
  }

  method InterleaveScalar<E(!new)>(f: Field<E>, accumulate: bool, even: seq<E>, odd: seq<E>, dst: array<E>, from: nat)
    requires |even| == |odd| && 2 * (from + |even|) <= dst.Length
    modifies dst
    ensures forall i :: 0 <= i < |even| ==>
      dst[2 * (from + i)] == (if accumulate then f.Add(old(dst[2 * (from + i)]), even[i]) else even[i])
      && dst[2 * (from + i) + 1] == (if accumulate then f.Add(old(dst[2 * (from + i) + 1]), odd[i]) else odd[i])
    ensures forall j :: 0 <= j < dst.Length && !(2 * from <= j < 2 * (from + |even|)) ==> dst[j] == old(dst[j])
  {
    for i := 0 to |even|
      invariant forall l :: 0 <= l < i ==>
        dst[2 * (from + l)] == (if accumulate then f.Add(old(dst[2 * (from + l)]), even[l]) else even[l])
        && dst[2 * (from + l) + 1] == (if accumulate then f.Add(old(dst[2 * (from + l) + 1]), odd[l]) else odd[l])
      invariant forall j :: 0 <= j < dst.Length && !(2 * from <= j < 2 * (from + i)) ==> dst[j] == old(dst[j])
    {
      if accumulate {
        dst[2 * (from + i)] := f.Add(dst[2 * (from + i)], even[i]);
        dst[2 * (from + i) + 1] := f.Add(dst[2 * (from + i) + 1], odd[i]);
      } else {
        dst[2 * (from + i)] := even[i];
        dst[2 * (from + i) + 1] := odd[i];
      }
    }
  }

  /** Overwriting interleave inverts deinterleave. */
  lemma InterleaveInverts<E>(src: seq<E>, even: seq<E>, odd: seq<E>, dst: seq<E>)
    requires |even| == |odd| && |src| == |dst| == 2 * |even|
    requires forall i :: 0 <= i < |even| ==> (even[i], odd[i]) == At(src, i)
    requires forall i :: 0 <= i < |even| ==> dst[2 * i] == even[i] && dst[2 * i + 1] == odd[i]
    ensures dst == src
  {
    forall j | 0 <= j < |src| ensures dst[j] == src[j] {
      var i := j / 2;
      assert j == 2 * i || j == 2 * i + 1;
      assert (even[i], odd[i]) == At(src, i);
    }
  }

  // ----- the four base-field products

  function CoefficientA<E(==, !new)>(t: Tower<E>, elem: Pair<E>): E { t.base.Add(elem.1, t.base.Mul(t.p1, elem.0)) }

  function CoefficientC<E(==, !new)>(t: Tower<E>, elem: Pair<E>): E { t.base.Mul(t.p0, elem.0) }

  /** The product as two linear combinations of the input planes. */
  lemma PlanesAreProduct<E(!new)>(t: Tower<E>, elem: Pair<E>, a: Pair<E>)
    requires t.Valid()
    ensures t.Mul(elem, a) == (t.base.Add(t.base.Mul(CoefficientA(t, elem), a.0), t.base.Mul(elem.0, a.1)),
                               t.base.Add(t.base.Mul(CoefficientC(t, elem), a.0), t.base.Mul(elem.1, a.1)))
  {
    t.MulComm(elem, a);
    t.Decompose(a, elem);
    t.base.Laws(a.0, CoefficientA(t, elem), elem.0);
    t.base.Laws(a.1, elem.0, elem.0);
    t.base.Laws(a.0, CoefficientC(t, elem), elem.0);
    t.base.Laws(a.1, elem.1, elem.0);
  }

  /** A constant scales both coordinates. */
  lemma ConstantProduct<E(!new)>(t: Tower<E>, c: E, a: Pair<E>)
    requires t.Valid()
    ensures t.Mul(t.Constant(c), a) == (t.base.Mul(c, a.0), t.base.Mul(c, a.1))
  {
    t.Decompose(t.Constant(c), a);
    t.PairLaws(t.Shift(a), a, a, c, c);
    t.PairLaws(t.Scale(c, a), a, a, c, c);
  }

  /** One output plane of a chunk: two fixed-multiplier slice operations. */
  method CombinePlanes<E(!new)>(f: Field<E>, u: E, v: E, ax: seq<E>, ac: seq<E>, plane: array<E>)
    requires |ax| == |ac| <= plane.Length
    modifies plane
    ensures forall i :: 0 <= i < |ax| ==> plane[i] == f.Add(f.Mul(u, ax[i]), f.Mul(v, ac[i]))
  {
    MulSlice(f, u, ax, plane, 0);
    ghost var first := plane[..];
    MulSliceAdd(f, v, ac, plane, 0);
    forall i | 0 <= i < |ax| ensures plane[i] == f.Add(f.Mul(u, ax[i]), f.Mul(v, ac[i])) {
      assert plane[i] == plane[..][i] && first[0..|ac|][i] == first[i];
    }
  }

  /** One chunk through the planes. */
  method MultiplyChunk<E(==, !new)>(t: Tower<E>, elem: Pair<E>, accumulate: bool, input: seq<E>, out: array<E>, offset: nat, n: nat,
                                    ax: array<E>, ac: array<E>, ox: array<E>, oc: array<E>)
    requires t.Valid() && |input| == 2 * n && 2 * (offset + n) <= out.Length && n <= GF16_CHUNK
    requires ax.Length == ac.Length == ox.Length == oc.Length == GF16_CHUNK
    requires ax != ac && ax != ox && ax != oc && ac != ox && ac != oc && ox != oc && out != ax && out != ac && out != ox && out != oc
    modifies out, ax, ac, ox, oc
    ensures forall i {:trigger At(input, i)} :: 0 <= i < n ==>
      (out[2 * (offset + i)], out[2 * (offset + i) + 1])
      == Expected(t, elem, accumulate, old((out[2 * (offset + i)], out[2 * (offset + i) + 1])), At(input, i))
    ensures forall j :: 0 <= j < out.Length && !(2 * offset <= j < 2 * (offset + n)) ==> out[j] == old(out[j])
  {
    hide Tower.Mul, CoefficientA, CoefficientC, Field.Valid;
    ghost var was := out[..];
    DeinterleaveScalar(input, ax, ac, n);
    var planeX, planeC := ax[..n], ac[..n];
    CombinePlanes(t.base, CoefficientA(t, elem), elem.0, planeX, planeC, ox);
    CombinePlanes(t.base, CoefficientC(t, elem), elem.1, planeX, planeC, oc);
    var even, odd := ox[..n], oc[..n];
    InterleaveScalar(t.base, accumulate, even, odd, out, offset);
    forall i | 0 <= i < n
      ensures (out[2 * (offset + i)], out[2 * (offset + i) + 1])
           == Expected(t, elem, accumulate, (was[2 * (offset + i)], was[2 * (offset + i) + 1]), At(input, i))
    {
      PlanesAreProduct(t, elem, At(input, i));
    }
  }

  /** The general multiplier, over fixed scratch planes. */
  method Gf16MulGeneral<E(==, !new)>(t: Tower<E>, elem: Pair<E>, accumulate: bool, input: seq<E>, out: array<E>, len: nat)
    requires t.Valid() && |input| == out.Length == 2 * len
    modifies out
    ensures Multiplied(t, elem, accumulate, input, old(out[..]), out[..], len, len)
  {
    ghost var was := out[..];
    var ax := new E[GF16_CHUNK](_ => t.base.zero);
    var ac := new E[GF16_CHUNK](_ => t.base.zero);
    var ox := new E[GF16_CHUNK](_ => t.base.zero);
    var oc := new E[GF16_CHUNK](_ => t.base.zero);
    var offset := 0;
    while offset < len
      invariant offset <= len && Multiplied(t, elem, accumulate, input, was, out[..], len, offset)
    {
      var n := if GF16_CHUNK < len - offset then GF16_CHUNK else len - offset;
      ghost var before := out[..];
      var chunk := input[2 * offset..2 * (offset + n)];
      MultiplyChunk(t, elem, accumulate, chunk, out, offset, n, ax, ac, ox, oc);
      ChunkMultiplied(t, elem, accumulate, input, was, before, out[..], len, offset, n);
      offset := offset + n;
    }
  }

  lemma ChunkMultiplied<E(!new)>(t: Tower<E>, elem: Pair<E>, accumulate: bool, input: seq<E>, was: seq<E>, before: seq<E>, now: seq<E>, len: nat, offset: nat, n: nat)
    requires |input| == |was| == |before| == |now| == 2 * len && offset + n <= len
    requires Multiplied(t, elem, accumulate, input, was, before, len, offset)
    requires forall i {:trigger At(input[2 * offset..2 * (offset + n)], i)} :: 0 <= i < n ==>
      (now[2 * (offset + i)], now[2 * (offset + i) + 1])
      == Expected(t, elem, accumulate, (before[2 * (offset + i)], before[2 * (offset + i) + 1]), At(input[2 * offset..2 * (offset + n)], i))
    requires forall j :: 0 <= j < |now| && !(2 * offset <= j < 2 * (offset + n)) ==> now[j] == before[j]
    ensures Multiplied(t, elem, accumulate, input, was, now, len, offset + n)
  {
    var chunk := input[2 * offset..2 * (offset + n)];
    forall i | 0 <= i < offset + n ensures At(now, i) == Expected(t, elem, accumulate, At(was, i), At(input, i)) {
      if i < offset {
        assert At(before, i) == Expected(t, elem, accumulate, At(was, i), At(input, i));
        assert At(now, i) == At(before, i);
      } else {
        assert At(before, i) == At(was, i);
        assert At(chunk, i - offset) == At(input, i);
        assert i == offset + (i - offset);
      }
    }
    forall i | offset + n <= i < len ensures At(now, i) == At(was, i) {
      assert At(now, i) == At(before, i);
      assert At(before, i) == At(was, i);
    }
  }

  /** The chunked slice multiply equals element-wise tower multiplication, overwriting or accumulating,
      for every length; a constant multiplier keeps the interleaved layout. */
  method Gf16MulSlice<E(==, !new)>(t: Tower<E>, elem: Pair<E>, accumulate: bool, input: seq<E>, out: array<E>, len: nat)
    requires t.Valid() && |input| == out.Length == 2 * len
    modifies out
    ensures Multiplied(t, elem, accumulate, input, old(out[..]), out[..], len, len)
  {
    if elem.0 == t.base.zero {
      ghost var was := out[..];
      if accumulate {
        MulSliceAdd(t.base, elem.1, input, out, 0);
      } else {
        MulSlice(t.base, elem.1, input, out, 0);
      }
      ghost var now := out[..];
      assert was[0..|input|] == was;
      forall j | 0 <= j < |input|
        ensures now[j] == if accumulate then t.base.Add(was[j], t.base.Mul(elem.1, input[j])) else t.base.Mul(elem.1, input[j])
      {
      }
      SubfieldMultiplied(t, elem, accumulate, input, was, now, len);
      return;
    }
    if len == 0 {
      return;
    }
    Gf16MulGeneral(t, elem, accumulate, input, out, len);
  }

  lemma SubfieldMultiplied<E(!new)>(t: Tower<E>, elem: Pair<E>, accumulate: bool, input: seq<E>, was: seq<E>, now: seq<E>, len: nat)
    requires t.Valid() && |input| == |was| == |now| == 2 * len && elem.0 == t.base.zero
    requires forall j :: 0 <= j < |input| ==>
      now[j] == if accumulate then t.base.Add(was[j], t.base.Mul(elem.1, input[j])) else t.base.Mul(elem.1, input[j])
    ensures Multiplied(t, elem, accumulate, input, was, now, len, len)
  {
    hide Tower.Mul, Field.Valid;
    forall i | 0 <= i < len ensures At(now, i) == Expected(t, elem, accumulate, At(was, i), At(input, i)) {
      ConstantProduct(t, elem.1, At(input, i));
      assert elem == t.Constant(elem.1);
    }
  }
}
