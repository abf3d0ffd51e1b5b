/** Fields in which the Jerasure-like builder cannot produce an MDS code. */
module JerasureLimits {
  import opened Outcomes
  import opened Fields
  import opened Mds
  import opened Matrices
  import opened Builders
  import opened JerasureBuilder
  import opened Towers
  import opened TowerFields
  import opened SmallFields

  function Swapped(n: nat): nat {
    if n == 0 then 1 else if n == 1 then 0 else n
  }

  /** The same field with the elements number zero and one trading places. */
  function Renumbered<E(!new)>(f: Field<E>): Field<E> {
    f.(nth := (n: nat) => f.Nth(Swapped(n)))
  }

  lemma {:induction false} SamePow<E(!new)>(f: Field<E>, a: E, n: nat)
    ensures Renumbered(f).Pow(a, n) == f.Pow(a, n)
  {
    if n > 0 {
      SamePow(f, a, n - 1);
    }
  }

  /** The interface asks only that the numbering is a bijection, so the new one is as good. */
  lemma RenumberedValid<E(!new)>(f: Field<E>)
    requires f.Valid() && f.order >= 2
    ensures Renumbered(f).Valid()
  {
    var g := Renumbered(f);
    forall a, b, c {:trigger g.Law(a, b, c)} | g.Law(a, b, c)
      ensures g.Add(a, b) == g.Add(b, a) && g.Add(g.Add(a, b), c) == g.Add(a, g.Add(b, c)) && g.Add(a, g.zero) == a && g.Add(a, a) == g.zero
      ensures g.Mul(a, b) == g.Mul(b, a) && g.Mul(g.Mul(a, b), c) == g.Mul(a, g.Mul(b, c)) && g.Mul(a, g.one) == a
      ensures g.Mul(a, g.Add(b, c)) == g.Add(g.Mul(a, b), g.Mul(a, c)) && (b != g.zero ==> g.Mul(g.Div(a, b), b) == a)
    {
      assert f.Law(a, b, c);
    }
    forall m: nat, n: nat {:trigger g.NthLaw(m, n)} | g.NthLaw(m, n)
      ensures m < g.order && n < g.order && g.Nth(m) == g.Nth(n) ==> m == n
    {
      assert f.NthLaw(Swapped(m), Swapped(n));
    }
    forall a {:trigger g.Law(a, a, a)} | g.Law(a, a, a) ensures exists n: nat :: n < g.order && g.Nth(n) == a {
      assert f.Law(a, a, a);
      var n: nat :| n < f.order && f.Nth(n) == a;
      assert g.Nth(Swapped(n)) == a;
    }
    forall a, n: nat {:trigger g.ExpLaw(a, n)} | g.ExpLaw(a, n) ensures g.Exp(a, n) == g.Pow(a, n) {
      assert f.ExpLaw(a, n);
      SamePow(f, a, n);
    }
  }

  /** Every field that numbers zero first can be renumbered into one that fails the builder's condition
      for all codes with an interior row. */
  lemma RenumberedFails<E(!new)>(f: Field<E>, n: nat)
    requires f.Valid() && f.Nth(0) == f.zero && 3 <= n <= f.order
    ensures Renumbered(f).Valid() && n <= Renumbered(f).order && !InteriorNonZero(Renumbered(f), n)
  {
    RenumberedValid(f);
    assert Renumbered(f).Nth(1) == f.zero;
  }

  /** GF(4) with zero as element number one. */
  function Gf4Renumbered(): Field<Pair<bool>> {
    Renumbered(AsField(Tower(Gf2(), true, true)))
  }

  lemma Gf4Fails()
    ensures Gf4Renumbered().Valid() && Gf4Renumbered().order == 4
    ensures Gf4Renumbered().Nth(1) == Gf4Renumbered().zero && !InteriorNonZero(Gf4Renumbered(), 4)
  {
    Gf4IsField();
    RenumberedFails(AsField(Tower(Gf2(), true, true)), 4);
  }

  /** A concrete run: two data and two parity shards over that field get no MDS matrix. */
  method BuildOverRenumberedGf4() returns (r: Result<Matrix<Pair<bool>>, BuildError>)
    ensures r.Ok? ==> r.value.Valid() && r.value.rowCount == 4 && r.value.colCount == 2
    ensures r.Ok? ==> !IsMds(Gf4Renumbered(), r.value.Rows(), 4, 2)
  {
    Gf4Fails();
    r := BuildJerasureLikeMatrix(Gf4Renumbered(), 2, 4);
  }
}
