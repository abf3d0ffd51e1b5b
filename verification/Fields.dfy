/** The finite-field interface that every codec in the library is generic over.

    A `Field` packages the arithmetic of one finite field of characteristic two.
    `Valid` states the laws an implementation promises.  The laws are quantified
    behind the trigger `Law`, so that they only fire where a lemma asks for them. */
module Fields {

  datatype Field<!E(!new)> = Field(
    order: nat,
    zero: E,
    one: E,
    add: (E, E) -> E,
    mul: (E, E) -> E,
    div: (E, E) -> E,
    exp: (E, nat) -> E,
    nth: nat -> E)
  {
    function Add(a: E, b: E): E { add(a, b) }

    function Mul(a: E, b: E): E { mul(a, b) }

    function Div(a: E, b: E): E { div(a, b) }

    function Exp(a: E, n: nat): E { exp(a, n) }

    function Nth(n: nat): E { nth(n) }

    /** n-fold multiplication, the meaning of `Exp`. */
    function Pow(a: E, n: nat): E {
      if n == 0 then one else Mul(Pow(a, n - 1), a)
    }

    ghost predicate Law(a: E, b: E, c: E) { true }

    ghost predicate NthLaw(m: nat, n: nat) { true }

    ghost predicate ExpLaw(a: E, n: nat) { true }

    ghost predicate Valid() {
      && one != zero
      && (forall a, b, c {:trigger Law(a, b, c)} :: Law(a, b, c) ==>
            && Add(a, b) == Add(b, a)
            && Add(Add(a, b), c) == Add(a, Add(b, c))
            && Add(a, zero) == a
            && Add(a, a) == zero
            && Mul(a, b) == Mul(b, a)
            && Mul(Mul(a, b), c) == Mul(a, Mul(b, c))
            && Mul(a, one) == a
            && Mul(a, Add(b, c)) == Add(Mul(a, b), Mul(a, c))
            && (b != zero ==> Mul(Div(a, b), b) == a))
      && (forall m: nat, n: nat {:trigger NthLaw(m, n)} :: NthLaw(m, n) ==>
            (m < order && n < order && Nth(m) == Nth(n) ==> m == n))
      && (forall a {:trigger Law(a, a, a)} :: Law(a, a, a) ==> exists n: nat :: n < order && Nth(n) == a)
      && (forall a, n: nat {:trigger ExpLaw(a, n)} :: ExpLaw(a, n) ==> Exp(a, n) == Pow(a, n))
    }

    lemma Laws(a: E, b: E, c: E)
      requires Valid()
      ensures Add(a, b) == Add(b, a)
      ensures Add(Add(a, b), c) == Add(a, Add(b, c))
      ensures Add(a, zero) == a && Add(zero, a) == a
      ensures Add(a, a) == zero
      ensures Mul(a, b) == Mul(b, a)
      ensures Mul(Mul(a, b), c) == Mul(a, Mul(b, c))
      ensures Mul(a, one) == a && Mul(one, a) == a
      ensures Mul(a, zero) == zero && Mul(zero, a) == zero
      ensures Mul(a, Add(b, c)) == Add(Mul(a, b), Mul(a, c))
      ensures Mul(Add(b, c), a) == Add(Mul(b, a), Mul(c, a))
      ensures b != zero ==> Mul(Div(a, b), b) == a
    {
      assert Law(a, b, c) && Law(a, one, zero) && Law(one, a, a) && Law(zero, a, a);
      assert Law(b, a, a) && Law(c, a, a) && Law(a, c, a) && Law(a, Add(b, c), a);
      // a * 0 = a * (0 + 0) = a * 0 + a * 0 = 0
      assert Law(a, zero, zero) && Law(zero, zero, zero);
      var az := Mul(a, zero);
      assert Law(az, az, az);
    }

    lemma AddSwap(a: E, b: E, c: E, d: E)
      requires Valid()
      ensures Add(Add(a, b), Add(c, d)) == Add(Add(a, c), Add(b, d))
    {
      Laws(a, b, Add(c, d));
      Laws(b, c, d);
      Laws(c, b, d);
      Laws(a, c, Add(b, d));
    }

    lemma AddCancel(a: E, b: E)
      requires Valid()
      ensures Add(a, b) == zero <==> a == b
      ensures Add(Add(a, b), b) == a
    {
      Laws(a, b, b);
      Laws(a, a, a);
      Laws(b, b, b);
    }

    /** A field has no zero divisors. */
    lemma NoZeroDivisors(a: E, b: E)
      requires Valid()
      ensures Mul(a, b) == zero <==> a == zero || b == zero
    {
      Laws(a, b, a);
      Laws(b, a, a);
      if a != zero {
        var i := Div(one, a);
        Laws(one, a, a);
        Laws(i, a, b);
        Laws(i, a, a);
        Laws(b, b, b);
      }
    }

    lemma InverseNonZero(a: E)
      requires Valid() && a != zero
      ensures Div(one, a) != zero
      ensures Mul(Div(one, a), a) == one
      ensures Mul(a, Div(one, a)) == one
    {
      Laws(one, a, a);
      Laws(a, Div(one, a), a);
      Laws(Div(one, a), a, a);
    }

    /** Two different elements have a nonzero difference, which in characteristic two is the sum. */
    lemma Distinct(m: nat, n: nat)
      requires Valid() && m < order && n < order
      ensures Add(Nth(m), Nth(n)) == zero <==> m == n
    {
      assert NthLaw(m, n);
      AddCancel(Nth(m), Nth(n));
    }

    lemma ExpIsPow(a: E, n: nat)
      requires Valid()
      ensures Exp(a, n) == Pow(a, n)
    {
      assert ExpLaw(a, n);
    }

    lemma {:induction false} PowAdd(a: E, m: nat, n: nat)
      requires Valid()
      ensures Pow(a, m + n) == Mul(Pow(a, m), Pow(a, n))
    {
      if n == 0 {
        Laws(Pow(a, m), one, a);
      } else {
        PowAdd(a, m, n - 1);
        Laws(Pow(a, m), Pow(a, n - 1), a);
      }
    }
  }
}
