/** The two smallest fields of characteristic two: the interface and the tower hypotheses can be met. */
module SmallFields {
  import opened Fields
  import opened Towers
  import opened TowerFields

  /** GF(2), as booleans. */
  function Gf2(): Field<bool> {
    Field(2, false, true, (a: bool, b: bool) => a != b, (a: bool, b: bool) => a && b, (a: bool, b: bool) => a && b,
          (a: bool, n: nat) => n == 0 || a, (n: nat) => n % 2 == 1)
  }

  lemma {:induction false} Gf2Pow(a: bool, n: nat)
    ensures Gf2().Pow(a, n) == (n == 0 || a)
  {
    if n > 0 {
      Gf2Pow(a, n - 1);
    }
  }

  lemma Gf2Laws(a: bool, b: bool, c: bool)
    ensures var f := Gf2();
      && f.Add(a, b) == f.Add(b, a) && f.Add(f.Add(a, b), c) == f.Add(a, f.Add(b, c)) && f.Add(a, f.zero) == a && f.Add(a, a) == f.zero
      && f.Mul(a, b) == f.Mul(b, a) && f.Mul(f.Mul(a, b), c) == f.Mul(a, f.Mul(b, c)) && f.Mul(a, f.one) == a
      && f.Mul(a, f.Add(b, c)) == f.Add(f.Mul(a, b), f.Mul(a, c)) && (b != f.zero ==> f.Mul(f.Div(a, b), b) == a)
  {
  }

  lemma Gf2Numbers()
    ensures Gf2().one != Gf2().zero
    ensures forall m: nat, n: nat :: m < Gf2().order && n < Gf2().order && Gf2().Nth(m) == Gf2().Nth(n) ==> m == n
    ensures forall a, n: nat :: Gf2().Exp(a, n) == (n == 0 || a)
  {
  }

  lemma Gf2Number(a: bool) returns (n: nat)
    ensures n < Gf2().order && Gf2().Nth(n) == a
  {
    n := if a then 1 else 0;
  }

  lemma Gf2Valid()
    ensures Gf2().Valid()
  {
    hide Gf2, Field.Pow, Field.Exp, Field.Nth, Field.Add, Field.Mul, Field.Div;
    Gf2Numbers();
    var f := Gf2();
    forall a, b, c {:trigger f.Law(a, b, c)} | f.Law(a, b, c)
      ensures f.Add(a, b) == f.Add(b, a) && f.Add(f.Add(a, b), c) == f.Add(a, f.Add(b, c)) && f.Add(a, f.zero) == a && f.Add(a, a) == f.zero
      ensures f.Mul(a, b) == f.Mul(b, a) && f.Mul(f.Mul(a, b), c) == f.Mul(a, f.Mul(b, c)) && f.Mul(a, f.one) == a
      ensures f.Mul(a, f.Add(b, c)) == f.Add(f.Mul(a, b), f.Mul(a, c)) && (b != f.zero ==> f.Mul(f.Div(a, b), b) == a)
    {
      Gf2Laws(a, b, c);
    }
    forall a {:trigger f.Law(a, a, a)} | f.Law(a, a, a) ensures exists n: nat :: n < f.order && f.Nth(n) == a {
      var n := Gf2Number(a);
    }
    forall a, n: nat {:trigger f.ExpLaw(a, n)} | f.ExpLaw(a, n) ensures f.Exp(a, n) == f.Pow(a, n) {
      Gf2Pow(a, n);
    }
  }

  /** GF(4) is the tower over GF(2) with `X^2 + X + 1`. */
  lemma Gf4IsField()
    ensures AsField(Tower(Gf2(), true, true)).Valid() && AsField(Tower(Gf2(), true, true)).order == 4
  {
    Gf2Valid();
    var t := Tower(Gf2(), true, true);
    assert t.Value(true) != false && t.Value(false) != false;
    assert t.Valid();
    TowerIsField(t);
  }
}
