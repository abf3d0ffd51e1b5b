/** The slice operations every coding loop is made of, on ranges of mutable buffers. */
module Slices {
  import opened Fields
  import opened Vectors

  /** `s` with the elements from `from` on replaced by `v`. */
  function Patch<T>(s: seq<T>, from: nat, v: seq<T>): (r: seq<T>)
    requires from + |v| <= |s|
    ensures |r| == |s|
    ensures forall i :: 0 <= i < |s| ==> r[i] == if from <= i < from + |v| then v[i - from] else s[i]
  {
    s[..from] + v + s[from + |v|..]
  }

  lemma PatchExtends<T>(s: seq<T>, from: nat, v: seq<T>, t: seq<T>)
    requires from + |v| <= |s| && |t| == |s|
    requires forall i :: from <= i < from + |v| ==> t[i] == v[i - from]
    requires forall i :: 0 <= i < |s| && !(from <= i < from + |v|) ==> t[i] == s[i]
    ensures t == Patch(s, from, v)
  {
  }

  /** `v` with its first `n` elements already replaced by those of `u`. */
  function Overlaid<T>(u: seq<T>, v: seq<T>, n: nat): (r: seq<T>)
    requires |u| == |v| && n <= |u|
    ensures |r| == |u| && (n < |u| ==> r[n] == v[n])
  {
    u[..n] + v[n..]
  }

  lemma OverlaidStep<T>(u: seq<T>, v: seq<T>, n: nat)
    requires |u| == |v| && n < |u|
    ensures Overlaid(u, v, n)[n := u[n]] == Overlaid(u, v, n + 1)
  {
  }

  lemma OverlaidEnds<T>(u: seq<T>, v: seq<T>)
    requires |u| == |v|
    ensures Overlaid(u, v, 0) == v && Overlaid(u, v, |u|) == u
  {
  }

  /** Overwrite: `out[from + i] := c * input[i]`. */
  method MulSlice<E(!new)>(f: Field<E>, c: E, input: seq<E>, out: array<E>, from: nat)
    requires from + |input| <= out.Length
    modifies out
    ensures out[..] == Patch(old(out[..]), from, Scale(f, c, input))
  {
    for i := 0 to |input|
      invariant forall j :: from <= j < from + i ==> out[j] == f.Mul(c, input[j - from])
      invariant forall j :: 0 <= j < out.Length && !(from <= j < from + i) ==> out[j] == old(out[j])
    {
      out[from + i] := f.Mul(c, input[i]);
    }
    PatchExtends(old(out[..]), from, Scale(f, c, input), out[..]);
  }

  /** Accumulate: `out[from + i] += c * input[i]`. */
  method MulSliceAdd<E(!new)>(f: Field<E>, c: E, input: seq<E>, out: array<E>, from: nat)
    requires from + |input| <= out.Length
    modifies out
    ensures out[..] == Patch(old(out[..]), from, AddVec(f, old(out[from..from + |input|]), Scale(f, c, input)))
  {
    for i := 0 to |input|
      invariant forall j :: from <= j < from + i ==> out[j] == f.Add(old(out[j]), f.Mul(c, input[j - from]))
      invariant forall j :: 0 <= j < out.Length && !(from <= j < from + i) ==> out[j] == old(out[j])
    {
      out[from + i] := f.Add(out[from + i], f.Mul(c, input[i]));
    }
    PatchExtends(old(out[..]), from, AddVec(f, old(out[from..from + |input|]), Scale(f, c, input)), out[..]);
  }
}
