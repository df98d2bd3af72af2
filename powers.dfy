/** The laws of the n-fold product p^n that `PolynomialData.__pow__` relies on:
    validity, p^a · p^b = p^(a+b), and one step of square-and-multiply. */
module PowerLaws {
  import opened Wrappers
  import opened Dicts
  import opened Sums
  import opened Monomials
  import opened Polynomials

  lemma {:induction false} NFoldValid(p: PolynomialData, n: nat)
    requires Valid(p)
    ensures Valid(NFold(p, n)) && NFold(p, n).baseRing == p.baseRing
  {
    if n > 0 {
      NFoldValid(p, n - 1);
      ProductValid(p, NFold(p, n - 1));
    }
  }

  /** From x·y = z: (p·x)·y = p·z. */
  lemma AddStep(p: PolynomialData, x: PolynomialData, y: PolynomialData, z: PolynomialData)
    requires Valid(p) && Valid(x) && Valid(y) && Valid(z)
    requires Equals(ProductOf(x, y), z)
    ensures Equals(ProductOf(ProductOf(p, x), y), ProductOf(p, z))
  {
    ProductAssocEquals(p, x, y);
    ProductValid(x, y);
    ProductEquals(p, p, ProductOf(x, y), z);
  }

  /** p^a · p^b = p^n where n = a + b. */
  lemma {:induction false} NFoldAdd(p: PolynomialData, a: nat, b: nat, n: nat)
    requires Valid(p) && n == a + b
    ensures Equals(ProductOf(NFold(p, a), NFold(p, b)), NFold(p, n))
    decreases a, 1
  {
    if a == 0 {
      NFoldValid(p, b);
      OneIdentity(NFold(p, b));
    } else {
      NFoldAddSucc(p, a - 1, b, n - 1, a, n);
    }
  }

  lemma {:induction false} NFoldAddSucc(p: PolynomialData, c: nat, b: nat, m: nat, a: nat, n: nat)
    requires Valid(p) && m == c + b && a == c + 1 && n == m + 1
    ensures Equals(ProductOf(NFold(p, a), NFold(p, b)), NFold(p, n))
    decreases a, 0
  {
    NFoldValid(p, c);
    NFoldValid(p, b);
    NFoldValid(p, m);
    NFoldAdd(p, c, b, m);
    AddStep(p, NFold(p, c), NFold(p, b), NFold(p, m));
  }

  /** `x` stands for `p^e`: valid, over `p`'s base ring, and equal to the n-fold product. */
  ghost predicate IsPower(x: PolynomialData, p: PolynomialData, e: nat) {
    x.baseRing == p.baseRing && Valid(x) && Equals(x, NFold(p, e))
  }

  /** `p` itself stands for p^1. */
  lemma SelfPower(p: PolynomialData)
    requires Valid(p)
    ensures IsPower(p, p, 1)
  {
    OneIdentity(p);
    NFoldValid(p, 1);
    EqualsIff(ProductOf(p, One(p.baseRing)), p);
    EqualsIff(p, NFold(p, 1));
  }

  /** p^a · p^b stands for p^(a+b). */
  lemma PowStep(p: PolynomialData, x: PolynomialData, a: nat, y: PolynomialData, b: nat, c: nat)
    requires Valid(p) && IsPower(x, p, a) && IsPower(y, p, b) && c == a + b
    ensures IsPower(ProductOf(x, y), p, c)
  {
    ProductValid(x, y);
    NFoldValid(p, a);
    NFoldValid(p, b);
    ProductEquals(x, NFold(p, a), y, NFold(p, b));
    NFoldAdd(p, a, b, c);
  }

  /** One `x * y` of the loops, when `x` and `y` stand for powers of `p`: it
      succeeds, and stands for the power of the summed exponent. */
  lemma MulStep(p: PolynomialData, x: PolynomialData, a: nat, y: PolynomialData, b: nat)
    requires Valid(p) && IsPower(x, p, a) && IsPower(y, p, b)
    ensures MulResult(x, y).Success? && IsPower(MulResult(x, y).value, p, a + b)
  {
    PowStep(p, x, a, y, b, a + b);
  }
}

/** `PolynomialData.__pow__`: square-and-multiply, proved equal to the n-fold product. */
module PolynomialPower {
  import opened Wrappers
  import opened Polynomials
  import opened PowerLaws

  /** The exponent handed to `**`: an integer, or a value of any other type. */
  datatype Exponent = IntExp(n: int) | OtherExp

  lemma HalveEven(ea: nat, n: nat)
    requires n % 2 == 0
    ensures (ea + ea) * (n / 2) == ea * n
  {
  }

  lemma HalveOdd(ea: nat, n: nat)
    requires n % 2 == 1
    ensures ea + 2 * ea * (n / 2) == ea * n
  {
  }

  /** The exponent the second loop reaches from `res` = p^c and `apow` = p^b
      with k still to process, one iteration at a time. */
  function LoopExponent(c: nat, b: nat, k: nat): nat
    decreases k
  {
    if k == 0 then c else LoopExponent(if k % 2 == 1 then c + (b + b) else c, b + b, k / 2)
  }

  lemma {:induction false} LoopExponentValue(c: nat, b: nat, k: nat)
    ensures LoopExponent(c, b, k) == c + 2 * b * k
    decreases k
  {
    if k > 0 {
      var c' := if k % 2 == 1 then c + (b + b) else c;
      LoopExponentValue(c', b + b, k / 2);
      var h := k / 2;
      assert k == 2 * h + k % 2;
      assert 2 * b * k == 2 * b * (2 * h) + 2 * b * (k % 2);
      assert 2 * b * (2 * h) == 2 * (b + b) * h;
    }
  }

  /** What the loops need of the property `isPow(x, e)`, "x stands for the e-th
      power": `x * y` of two powers always succeeds and is the power of the summed
      exponent. */
  ghost predicate MulAdds(isPow: (PolynomialData, nat) -> bool) {
    forall x: PolynomialData, a: nat, y: PolynomialData, b: nat {:trigger isPow(x, a), isPow(y, b), MulResult(x, y)} :: isPow(x, a) && isPow(y, b) ==>
      MulResult(x, y).Success? && isPow(MulResult(x, y).value, a + b)
  }

  /** One `x * y` of the loops, when `x` and `y` stand for the a-th and b-th powers. */
  method MulPowers(ghost isPow: (PolynomialData, nat) -> bool, x: PolynomialData, ghost a: nat, y: PolynomialData, ghost b: nat)
    returns (z: PolynomialData)
    requires MulAdds(isPow) && isPow(x, a) && isPow(y, b)
    ensures isPow(z, a + b)
  {
    var m := Mul(x, y);
    z := m.value;
  }

  /** The first loop of the code: square `x` while the exponent left is even. */
  method SquareWhileEven(ghost isPow: (PolynomialData, nat) -> bool, x: PolynomialData, ghost a: nat, n: nat)
    returns (y: PolynomialData, m: nat, ghost b: nat)
    requires MulAdds(isPow) && isPow(x, a) && n > 0
    ensures m % 2 == 1 && b * m == a * n && isPow(y, b)
  {
    y, m, b := x, n, a;
    while m % 2 == 0
      invariant m > 0 && b * m == a * n && isPow(y, b)
      decreases m
    {
      y := MulPowers(isPow, y, b, y, b);
      HalveEven(b, m);
      b, m := b + b, m / 2;
    }
  }

  /** The second loop of the code: with `res` the er-th power and `apow` the
      ea-th, the result is the (er + 2·ea·n)-th power. */
  method SquareAndMultiply(ghost isPow: (PolynomialData, nat) -> bool, apow: PolynomialData, ghost ea: nat,
                           res: PolynomialData, ghost er: nat, n: nat)
    returns (r: PolynomialData)
    requires MulAdds(isPow) && isPow(apow, ea) && isPow(res, er)
    ensures isPow(r, er + 2 * ea * n)
  {
    var x, k, y := apow, n, res;
    ghost var b, c := ea, er;
    while k != 0
      invariant LoopExponent(c, b, k) == LoopExponent(er, ea, n)
      invariant isPow(x, b) && isPow(y, c)
      decreases k
    {
      x := MulPowers(isPow, x, b, x, b);
      b := b + b;
      if k % 2 == 1 {
        y := MulPowers(isPow, x, b, y, c);
        c := b + c;
      }
      k := k / 2;
    }
    r := y;
    LoopExponentValue(er, ea, n);
    assert c == er + 2 * ea * n;
  }

  /** "Stands for a power of `p`" as the property the loops are generic in. */
  ghost function PowerOf(p: PolynomialData): (PolynomialData, nat) -> bool {
    (x: PolynomialData, e: nat) => IsPower(x, p, e)
  }

  lemma PowerOfIs(p: PolynomialData, z: PolynomialData, c: nat)
    requires IsPower(z, p, c)
    ensures PowerOf(p)(z, c)
  {
  }

  /** Powers of a valid `p` multiply as the loops need. */
  lemma PowersMulAdd(p: PolynomialData)
    requires Valid(p)
    ensures MulAdds(PowerOf(p))
  {
    forall x: PolynomialData, a: nat, y: PolynomialData, b: nat | PowerOf(p)(x, a) && PowerOf(p)(y, b)
      ensures MulResult(x, y).Success? && PowerOf(p)(MulResult(x, y).value, a + b)
    {
      MulStep(p, x, a, y, b);
      PowerOfIs(p, MulResult(x, y).value, a + b);
    }
  }

  /** The exponents of the two loops add up to `n`: after the first loop
      `ea·m = n` with `m` odd, and the second covers the rest. */
  lemma LoopsCover(ea: nat, m: nat, n: nat)
    requires m % 2 == 1 && ea * m == 1 * n
    ensures ea + 2 * ea * (m / 2) == n
  {
    HalveOdd(ea, m);
  }

  /** `p ** e` with the square-and-multiply loops of the code: `TypeError` for a
      negative or non-integer exponent, the polynomial 1 for exponent 0. */
  method Power(p: PolynomialData, e: Exponent) returns (r: Result<PolynomialData>)
    requires Valid(p)
    ensures r.Failure? <==> !(e.IntExp? && e.n >= 0)
    ensures r.Failure? ==> r.error == TypeError
    ensures r.Success? ==> r.value.baseRing == p.baseRing && Valid(r.value)
    ensures r.Success? ==> Equals(r.value, NFold(p, e.n))
  {
    if !e.IntExp? || e.n < 0 {
      return Failure(TypeError);
    }
    if e.n == 0 {
      return Success(One(p.baseRing));
    }
    PowersMulAdd(p);
    SelfPower(p);
    PowerOfIs(p, p, 1);
    var apow, n, ea := SquareWhileEven(PowerOf(p), p, 1, e.n);
    var res := SquareAndMultiply(PowerOf(p), apow, ea, apow, ea, n / 2);
    LoopsCover(ea, n, e.n);
    assert IsPower(res, p, e.n);
    return Success(res);
  }

  /** `p ** e` as written: exponent 0 reads `self.ring`, which a `PolynomialData`
      does not have. */
  function PowerAsWritten(p: PolynomialData, e: Exponent): (r: Result<PolynomialData>)
    ensures r.Failure? <==> !(e.IntExp? && e.n > 0)
  {
    if !e.IntExp? || e.n < 0 then Failure(TypeError)
    else if e.n == 0 then Failure(AttributeError)
    else Success(NFold(p, e.n))
  }

  /** As written, `p ** 0` fails where the polynomial 1 is meant. */
  lemma PowerZeroAsWritten(p: PolynomialData)
    ensures PowerAsWritten(p, IntExp(0)) == Failure(AttributeError)
    ensures NFold(p, 0) == One(p.baseRing)
  {
  }
}
