/** Ascending index lists, the survivor and target lists of a recovery. */
module Indices {
  import opened Fields
  import opened Vectors

  ghost predicate Ascending(s: seq<nat>) {
    forall i, j :: 0 <= i < j < |s| ==> s[i] < s[j]
  }

  ghost predicate Below(s: seq<nat>, n: nat) {
    forall i :: 0 <= i < |s| ==> s[i] < n
  }

  /** The elements of `s` at the positions `idx`, in that order. */
  function Gather<T>(s: seq<T>, idx: seq<nat>): (g: seq<T>)
    requires forall i :: 0 <= i < |idx| ==> idx[i] < |s|
    ensures |g| == |idx| && forall i {:trigger g[i]} :: 0 <= i < |idx| ==> g[i] == s[idx[i]]
  {
    seq(|idx|, i requires 0 <= i < |idx| => s[idx[i]])
  }

  /** `a` and `b` ascending share out the numbers below `n`. */
  ghost predicate Partition(a: seq<nat>, b: seq<nat>, n: nat) {
    && Ascending(a) && Ascending(b) && Below(a, n) && Below(b, n)
    && (forall i :: 0 <= i < n ==> (i in a) != (i in b))
  }

  /** How many leading elements lie below the bound. */
  function PartitionPoint(s: seq<nat>, bound: nat): (p: nat)
    requires Ascending(s)
    ensures p <= |s|
    ensures forall i :: 0 <= i < p ==> s[i] < bound
    ensures forall i :: p <= i < |s| ==> s[i] >= bound
  {
    if s == [] || s[|s| - 1] < bound then |s| else PartitionPoint(s[..|s| - 1], bound)
  }

  /** An ascending list is determined by its elements. */
  lemma {:induction false} AscendingUnique(a: seq<nat>, b: seq<nat>)
    requires Ascending(a) && Ascending(b) && forall x :: x in a <==> x in b
    ensures a == b
  {
    assert b == [] || b[0] in b;
    if a != [] {
      var x := a[|a| - 1];
      assert x in b;
      var y := b[|b| - 1];
      assert y in a;
      assert x == y;
      var a', b' := a[..|a| - 1], b[..|b| - 1];
      forall z ensures z in a' <==> z in b' {
        assert z in a' <==> z in a && z != x;
        assert z in b' <==> z in b && z != x;
      }
      AscendingUnique(a', b');
    }
  }

  /** The part of a partition below a bound keeps its length. */
  lemma {:induction false} PartitionSize(a: seq<nat>, b: seq<nat>, n: nat)
    requires Partition(a, b, n)
    ensures |a| + |b| == n
  {
    assert (a == [] || a[0] < n) && (b == [] || b[0] < n);
    if n > 0 {
      if n - 1 in a {
        LastOf(a, n);
        PartitionSize(a[..|a| - 1], b, n - 1) by { DropLast(a, b, n); }
      } else {
        LastOf(b, n);
        PartitionSize(a, b[..|b| - 1], n - 1) by { DropLast(b, a, n); }
      }
    }
  }

  lemma LastOf(a: seq<nat>, n: nat)
    requires n > 0 && Ascending(a) && Below(a, n) && n - 1 in a
    ensures |a| > 0 && a[|a| - 1] == n - 1
  {
    var i :| 0 <= i < |a| && a[i] == n - 1;
  }

  lemma DropLast(a: seq<nat>, b: seq<nat>, n: nat)
    requires n > 0 && Partition(a, b, n) && n - 1 in a
    ensures |a| > 0 && Partition(a[..|a| - 1], b, n - 1)
  {
    LastOf(a, n);
    var a' := a[..|a| - 1];
    forall i | 0 <= i < |b| ensures b[i] < n - 1 {
      assert b[i] in b;
    }
    forall i | 0 <= i < n - 1 ensures i in a' <==> i in a {
      if i in a {
        var j :| 0 <= j < |a| && a[j] == i;
        assert a'[j] == i;
      }
    }
  }

  /** An inner product splits along a partition of its positions. */
  lemma {:induction false} DotPartition<E(!new)>(f: Field<E>, g: seq<E>, x: seq<E>, a: seq<nat>, b: seq<nat>, n: nat)
    requires f.Valid() && n <= |g| && n <= |x| && Partition(a, b, n)
    ensures DotN(f, g, x, n) == f.Add(Dot(f, Gather(g, a), Gather(x, a)), Dot(f, Gather(g, b), Gather(x, b)))
    decreases n
  {
    if n == 0 {
      PartitionSize(a, b, 0);
      f.Laws(f.zero, f.zero, f.zero);
    } else {
      var p := f.Mul(g[n - 1], x[n - 1]);
      if n - 1 in a {
        DropLast(a, b, n);
        LastOf(a, n);
        var a' := a[..|a| - 1];
        DotPartition(f, g, x, a', b, n - 1);
        GatherLast(f, g, x, a);
        var s, t := Dot(f, Gather(g, a'), Gather(x, a')), Dot(f, Gather(g, b), Gather(x, b));
        f.Laws(s, t, p);
        f.Laws(s, p, t);
        f.Laws(t, p, p);
      } else {
        DropLast(b, a, n);
        LastOf(b, n);
        var b' := b[..|b| - 1];
        DotPartition(f, g, x, a, b', n - 1);
        GatherLast(f, g, x, b);
        f.Laws(Dot(f, Gather(g, a), Gather(x, a)), Dot(f, Gather(g, b'), Gather(x, b')), p);
      }
    }
  }

  lemma GatherLast<E(!new)>(f: Field<E>, g: seq<E>, x: seq<E>, a: seq<nat>)
    requires |a| > 0 && (forall i :: 0 <= i < |a| ==> a[i] < |g| && a[i] < |x|)
    ensures var a', l := a[..|a| - 1], a[|a| - 1];
      Dot(f, Gather(g, a), Gather(x, a)) == f.Add(Dot(f, Gather(g, a'), Gather(x, a')), f.Mul(g[l], x[l]))
  {
    var a' := a[..|a| - 1];
    DotNAgree(f, Gather(g, a), Gather(x, a), Gather(g, a'), Gather(x, a'), |a'|);
  }
}
