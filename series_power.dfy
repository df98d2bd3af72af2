/** `SeriesData.__pow__` / `_Series.__pow__`: square-and-multiply over the
    truncated product, proved equal to the n-fold truncated product.

    The n-fold product is stated on flattened series (`SPow`), where the
    truncated product is associative as long as T-degrees are nonnegative.
    `Shaped` states that shape; the constructor's series have it and sums,
    negations and products keep it. */
module SeriesPower {
  import opened Wrappers
  import opened Dicts
  import opened Sums
  import opened Monomials
  import opened Polynomials
  import opened SeriesBuckets
  import opened SeriesArithmetic
  import opened SeriesProducts
  import opened PowerSeriesRings
  import PolynomialPower

  // ------------------------------------------------------------ keys of the ambient ring

  /** A monomial y^m·T^N of a series: nonnegative T-degree, well-formed m. */
  ghost predicate GoodKey(k: Graded) {
    k.deg >= 0 && WellFormed(k.mono)
  }

  ghost predicate GoodKeys(F: Flattened) {
    forall i :: 0 <= i < |F| ==> GoodKey(F[i].key)
  }

  lemma GoodAssoc(x: Graded, y: Graded, z: Graded, cap: int)
    requires GoodKey(x) && GoodKey(y) && GoodKey(z)
    ensures Associates(GOp, GKeep(cap), x, y, z)
  {
    MergeAssoc(x.mono, y.mono, z.mono);
  }

  lemma GoodAssocOn(a: Flattened, b: Flattened, c: Flattened, cap: int)
    requires GoodKeys(a) && GoodKeys(b) && GoodKeys(c)
    ensures AssociatesOn(a, b, c, GOp, GKeep(cap))
  {
    forall i, j, l | 0 <= i < |a| && 0 <= j < |b| && 0 <= l < |c|
      ensures Associates(GOp, GKeep(cap), a[i].key, b[j].key, c[l].key)
    {
      GoodAssoc(a[i].key, b[j].key, c[l].key, cap);
    }
  }

  lemma {:induction false} RowGood(x: Item<Graded, int>, b: Flattened, cap: int)
    requires GoodKey(x.key) && GoodKeys(b)
    ensures GoodKeys(Row(x, b, GOp, GKeep(cap)))
  {
    if |b| > 0 {
      RowGood(x, b[1..], cap);
      MergeWellFormed(x.key.mono, b[0].key.mono);
    }
  }

  lemma {:induction false} ConvGood(a: Flattened, b: Flattened, cap: int)
    requires GoodKeys(a) && GoodKeys(b)
    ensures GoodKeys(SeriesConv(a, b, cap))
  {
    if |a| > 0 {
      RowGood(a[0], b, cap);
      ConvGood(a[1..], b, cap);
    }
  }

  lemma {:induction false} FlatGood(s: Buckets)
    requires BucketsValid(s) && forall i :: 0 <= i < |s| ==> s[i].key >= 0
    ensures GoodKeys(Flat(s))
  {
    if |s| > 0 {
      FlatGood(s[1..]);
      assert GoodKeys(Lift(s[0].key, s[0].val.terms));
    }
  }

  // ------------------------------------------------------------ the n-fold truncated product

  /** F^e = F·(F·(…·F)) truncated at `cap`, for e ≥ 1. */
  function SPow(F: Flattened, e: nat, cap: int): Flattened
    requires e >= 1
  {
    if e == 1 then F else SeriesConv(F, SPow(F, e - 1, cap), cap)
  }

  lemma {:induction false} SPowGood(F: Flattened, e: nat, cap: int)
    requires e >= 1 && GoodKeys(F)
    ensures GoodKeys(SPow(F, e, cap))
  {
    if e > 1 {
      SPowGood(F, e - 1, cap);
      ConvGood(F, SPow(F, e - 1, cap), cap);
    }
  }

  /** F·(A·B) and (F·A)·B agree, so F·N does whenever A·B and N do. */
  lemma SPowAddStep(F: Flattened, A: Flattened, B: Flattened, N: Flattened, cap: int)
    requires GoodKeys(F) && GoodKeys(A) && GoodKeys(B)
    requires SameCoeffs(SeriesConv(A, B, cap), N)
    ensures SameCoeffs(SeriesConv(SeriesConv(F, A, cap), B, cap), SeriesConv(F, N, cap))
  {
    var AB := SeriesConv(A, B, cap);
    GoodAssocOn(F, A, B, cap);
    ConvAssoc(F, A, B, GOp, GKeep(cap));
    ConvCongruence(F, F, AB, N, GOp, GKeep(cap));
    forall k
      ensures Coeff(SeriesConv(SeriesConv(F, A, cap), B, cap), k) == Coeff(SeriesConv(F, N, cap), k)
    {
      assert Coeff(SeriesConv(SeriesConv(F, A, cap), B, cap), k) == Coeff(SeriesConv(F, AB, cap), k);
    }
  }

  /** F^a · F^b has the coefficients of F^n, where n = a + b. */
  lemma {:induction false} SPowAdd(F: Flattened, a: nat, b: nat, n: nat, cap: int)
    requires GoodKeys(F) && a >= 1 && b >= 1 && n == a + b
    ensures SameCoeffs(SeriesConv(SPow(F, a, cap), SPow(F, b, cap), cap), SPow(F, n, cap))
    decreases a
  {
    if a > 1 {
      var A := SPow(F, a - 1, cap);
      var B := SPow(F, b, cap);
      var N1 := SPow(F, n - 1, cap);
      SPowGood(F, a - 1, cap);
      SPowGood(F, b, cap);
      SPowAdd(F, a - 1, b, n - 1, cap);
      SPowAddStep(F, A, B, N1, cap);
      assert SPow(F, a, cap) == SeriesConv(F, A, cap);
      assert SPow(F, n, cap) == SeriesConv(F, N1, cap);
    }
  }

  // ------------------------------------------------------------ series over one base ring

  /** Buckets of nonnegative degree over the base ring `ring`. */
  ghost predicate Over(s: Buckets, ring: RingId) {
    forall i :: 0 <= i < |s| ==> s[i].key >= 0 && s[i].val.baseRing == ring
  }

  /** Ascending, valid buckets of nonnegative degree over the series' own
      base ring (`ShapedCall`, `ConstructedShaped`, `ShapedSum`, `ShapedNeg`
      and `MulShaped` prove it of what the ring builds). */
  ghost predicate Shaped(x: SeriesData) {
    Ascending(x.terms) && BucketsValid(x.terms) && Over(x.terms, x.baseRing)
  }

  lemma {:induction false} MulRowOver(x: Bucket, b: Buckets, cap: int, ring: RingId)
    requires x.key >= 0 && x.val.baseRing == ring && Over(b, ring)
    ensures Over(MulRow(x, b, cap), ring) && RowRingsAgree(x, b, cap)
  {
    if |b| > 0 && x.key + b[0].key < cap {
      assert Over(b[1..], ring) by {
        forall i | 0 <= i < |b[1..]|
          ensures b[1..][i].key >= 0 && b[1..][i].val.baseRing == ring
        {
          assert b[1..][i] == b[i + 1];
        }
      }
      MulRowOver(x, b[1..], cap, ring);
    }
  }

  lemma {:induction false} MulContribsOver(a: Buckets, b: Buckets, cap: int, ring: RingId)
    requires Over(a, ring) && Over(b, ring)
    ensures Over(MulContribs(a, b, cap), ring) && RingsAgree(a, b, cap)
  {
    if |a| > 0 {
      assert Over(a[1..], ring) by {
        forall i | 0 <= i < |a[1..]|
          ensures a[1..][i].key >= 0 && a[1..][i].val.baseRing == ring
        {
          assert a[1..][i] == a[i + 1];
        }
      }
      MulRowOver(a[0], b, cap, ring);
      MulContribsOver(a[1..], b, cap, ring);
    }
  }

  lemma ValidOk(s: Buckets)
    requires BucketsValid(s)
    ensures BucketsOk(s)
  {
  }

  /** Two series over one base ring always multiply, and the product has the
      same shape, `x`'s base ring, `y`'s cap and the truncated-product
      coefficients. */
  lemma MulShaped(x: SeriesData, y: SeriesData)
    requires Shaped(x) && Shaped(y) && x.baseRing == y.baseRing
    ensures ProductSeries(x, y).Success?
    ensures Shaped(ProductSeries(x, y).value)
    ensures ProductSeries(x, y).value.baseRing == x.baseRing && ProductSeries(x, y).value.cap == y.cap
    ensures SameCoeffs(Flat(ProductSeries(x, y).value.terms), SeriesConv(Flat(x.terms), Flat(y.terms), y.cap))
  {
    ValidOk(x.terms);
    ValidOk(y.terms);
    var cs := MulContribs(x.terms, y.terms, y.cap);
    var D := Gather([], cs);
    MulContribsOver(x.terms, y.terms, y.cap, x.baseRing);
    ProductSeriesShape(x, y);
    ProductSeriesCoeffs(x, y);
    MulContribsOk(x.terms, y.terms, y.cap);
    GatherFacts([], cs);
    GatherRing([], cs, x.baseRing);
    FinishFacts(D, true);
    var z := ProductSeries(x, y).value.terms;
    assert z == Finish(D, true);
    forall i | 0 <= i < |z|
      ensures z[i].key >= 0 && z[i].val.baseRing == x.baseRing
    {
      assert Has(D, z[i].key);
      HasIff(cs, z[i].key);
      assert D[Find(D, z[i].key)].val == z[i].val;
    }
  }

  /** `ring(n)` and `ring(c)` are shaped. */
  lemma ShapedCall(r: SeriesRing, x: SeriesInput)
    requires !x.DataArg?
    ensures Shaped(Call(r, x).data) && Call(r, x).data.baseRing == r.baseRing
  {
    var z := Call(r, x).data.terms;
    forall i | 0 <= i < |z|
      ensures z[i].key >= 0 && z[i].val.baseRing == r.baseRing
    {
      assert z == ConstantBuckets(r.baseRing, if x.IntArg? then x.n else x.value);
    }
  }

  /** A generator of a ring with positive weights is shaped: its one bucket
      sits at the nonnegative degree of x_i. */
  lemma ShapedGenerator(r: SeriesRing, totalDegree: bool, i: nat, s: SeriesData)
    requires forall j :: 0 <= j < |r.weights| ==> r.weights[j] > 0
    requires IsGenerator(r, totalDegree, i, s)
    ensures Shaped(s) && s.baseRing == r.baseRing
  {
    var rule := RuleOf(r, totalDegree);
    GeneratorDegree(rule, i);
    PolynomialRings.GeneratorFacts(r.baseRing, i, []);
    assert DegreeOf(rule, [Pair(i, 1)]) >= 0;
  }

  /** Every series the constructor stores (`one`, `zero`, the generators) is
      shaped. */
  lemma ConstructedShaped(r: SeriesRing, totalDegree: bool)
    requires Constructed(r, totalDegree)
    ensures Shaped(r.one) && Shaped(r.zero)
    ensures forall i :: 0 <= i < |r.gens| ==> Shaped(r.gens[i]) && r.gens[i].baseRing == r.baseRing
  {
    ShapedCall(r, IntArg(1));
    ShapedCall(r, IntArg(0));
    forall i | 0 <= i < |r.gens|
      ensures Shaped(r.gens[i]) && r.gens[i].baseRing == r.baseRing
    {
      ShapedGenerator(r, totalDegree, i, r.gens[i]);
    }
  }

  /** The sum of two shaped series over one base ring is shaped. */
  lemma ShapedSum(f: SeriesData, g: SeriesData)
    requires Shaped(f) && Shaped(g) && f.baseRing == g.baseRing
    ensures Shaped(SumSeries(f, g)) && SumSeries(f, g).baseRing == f.baseRing
  {
    ValidOk(f.terms);
    ValidOk(g.terms);
    SumSeriesShape(f, g);
    var b := BelowCap(f.terms, g.cap);
    BelowCapFacts(f.terms, g.cap);
    DictOfDistinct(g.terms);
    assert forall i :: 0 <= i < |b| ==> b[i].val.baseRing == f.baseRing by {
      forall i | 0 <= i < |b|
        ensures b[i].val.baseRing == f.baseRing
      {
        assert b[i] in f.terms;
      }
    }
    GatherRing(g.terms, b, f.baseRing);
    var D := Gather(g.terms, b);
    ItemsOfFacts(b, f.terms);
    GatherFacts(g.terms, b);
    FinishFacts(D, true);
    var z := SumSeries(f, g).terms;
    assert z == Finish(D, true);
    forall i | 0 <= i < |z|
      ensures z[i].key >= 0 && z[i].val.baseRing == f.baseRing
    {
      HasIff(g.terms, z[i].key);
      HasIff(f.terms, z[i].key);
      assert D[Find(D, z[i].key)].val == z[i].val;
    }
  }

  /** The negation of a shaped series is shaped. */
  lemma ShapedNeg(f: SeriesData)
    requires Shaped(f)
    ensures Shaped(NegSeries(f)) && NegSeries(f).baseRing == f.baseRing
  {
    NegSeriesFacts(f);
    var z := NegSeries(f).terms;
    forall i | 0 <= i < |z|
      ensures z[i].key >= 0 && z[i].val.baseRing == f.baseRing
    {
      NegationFacts(f.terms[i].val);
    }
  }

  // ------------------------------------------------------------ square-and-multiply

  /** `x` stands for f^e: shaped like `f`, with the coefficients of the e-fold
      truncated product. */
  ghost predicate IsSPower(x: SeriesData, f: SeriesData, e: nat) {
    e >= 1 && Shaped(x) && x.baseRing == f.baseRing && x.cap == f.cap &&
    SameCoeffs(Flat(x.terms), SPow(Flat(f.terms), e, f.cap))
  }

  lemma SelfPower(f: SeriesData)
    requires Shaped(f)
    ensures IsSPower(f, f, 1)
  {
  }

  /** f^a · f^b stands for f^(a+b). */
  lemma PowStep(f: SeriesData, x: SeriesData, a: nat, y: SeriesData, b: nat)
    requires Shaped(f) && IsSPower(x, f, a) && IsSPower(y, f, b)
    ensures ProductSeries(x, y).Success? && IsSPower(ProductSeries(x, y).value, f, a + b)
  {
    var F := Flat(f.terms);
    var X := Flat(x.terms);
    var Y := Flat(y.terms);
    var cap := f.cap;
    MulShaped(x, y);
    FlatGood(f.terms);
    ConvCongruence(X, SPow(F, a, cap), Y, SPow(F, b, cap), GOp, GKeep(cap));
    SPowAdd(F, a, b, a + b, cap);
    var Z := Flat(ProductSeries(x, y).value.terms);
    forall k
      ensures Coeff(Z, k) == Coeff(SPow(F, a + b, cap), k)
    {
      assert Coeff(Z, k) == Coeff(SeriesConv(X, Y, cap), k);
      assert Coeff(SeriesConv(X, Y, cap), k) == Coeff(SeriesConv(SPow(F, a, cap), SPow(F, b, cap), cap), k);
    }
  }

  /** One `x * y` of the loops, when `x` and `y` stand for f^a and f^b. */
  method MulPowers(ghost f: SeriesData, x: SeriesData, ghost a: nat, y: SeriesData, ghost b: nat)
    returns (z: SeriesData)
    requires Shaped(f) && IsSPower(x, f, a) && IsSPower(y, f, b)
    ensures IsSPower(z, f, a + b)
  {
    PowStep(f, x, a, y, b);
    ValidOk(x.terms);
    ValidOk(y.terms);
    var m := MulSeries(x, y);
    z := m.value;
  }

  /** The first loop: square `apow` while the exponent left is even. */
  method SquareWhileEven(ghost f: SeriesData, x: SeriesData, ghost a: nat, n: nat)
    returns (y: SeriesData, m: nat, ghost b: nat)
    requires Shaped(f) && IsSPower(x, f, a) && n > 0
    ensures m % 2 == 1 && b * m == a * n && IsSPower(y, f, b)
  {
    y, m, b := x, n, a;
    while m % 2 == 0
      invariant m > 0 && b * m == a * n && IsSPower(y, f, b)
      decreases m
    {
      y := MulPowers(f, y, b, y, b);
      PolynomialPower.HalveEven(b, m);
      b, m := b + b, m / 2;
    }
  }

  /** The second loop: with `res` = f^er and `apow` = f^ea, the result is
      f^(er + 2·ea·n). */
  method SquareAndMultiply(ghost f: SeriesData, apow: SeriesData, ghost ea: nat,
                           res: SeriesData, ghost er: nat, n: nat)
    returns (r: SeriesData)
    requires Shaped(f) && IsSPower(apow, f, ea) && IsSPower(res, f, er)
    ensures IsSPower(r, f, er + 2 * ea * n)
  {
    var x, k, y := apow, n, res;
    ghost var b, c := ea, er;
    while k != 0
      invariant PolynomialPower.LoopExponent(c, b, k) == PolynomialPower.LoopExponent(er, ea, n)
      invariant IsSPower(x, f, b) && IsSPower(y, f, c)
      decreases k
    {
      x := MulPowers(f, x, b, x, b);
      b := b + b;
      if k % 2 == 1 {
        y := MulPowers(f, x, b, y, c);
        c := b + c;
      }
      k := k / 2;
    }
    r := y;
    PolynomialPower.LoopExponentValue(er, ea, n);
  }

  /** `SeriesData.__pow__` for n ≥ 1: the n-fold truncated product.  (For
      n ≤ 0 the loops of the code do not terminate.) */
  method Power(f: SeriesData, n: nat) returns (r: SeriesData)
    requires Shaped(f) && n >= 1
    ensures IsSPower(r, f, n)
  {
    SelfPower(f);
    var apow, m, ea := SquareWhileEven(f, f, 1, n);
    PolynomialPower.HalveOdd(ea, m);
    r := SquareAndMultiply(f, apow, ea, apow, ea, m / 2);
  }

  /** `_Series.__pow__`: the ring's one for n = 0, otherwise the n-fold
      truncated product.  The ring is a parameter here (the code asks for
      `self.parent()`). */
  method PowerOrOne(ring: SeriesRing, f: SeriesData, n: nat) returns (r: SeriesData)
    requires Shaped(f)
    ensures n == 0 ==> r == ring.one
    ensures n >= 1 ==> IsSPower(r, f, n)
  {
    if n == 0 {
      return ring.one;
    }
    r := Power(f, n);
  }

  /** `_Series.__pow__` as written: `self.parent()` is not an attribute of a
      `_Series`, so the exponent 0 raises `AttributeError`. */
  function PowerOrOneAsWritten(f: SeriesData, n: nat): (r: Result<Flattened>)
    ensures r.Failure? <==> n == 0
  {
    if n == 0 then Failure(AttributeError) else Success(SPow(Flat(f.terms), n, f.cap))
  }

  /** As written, `f ** 0` fails where the ring's one is meant. */
  lemma PowerZeroAsWritten(f: SeriesData)
    ensures PowerOrOneAsWritten(f, 0) == Failure(AttributeError)
  {
  }
}
