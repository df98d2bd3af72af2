/** `SeriesData` (and its later revision `_Series`): a term list of buckets
    `(N, g)` with a precision cap, and its sum, negation, difference and
    truncated product.

    The methods follow the code: a degree dictionary is filled in a loop, its
    degrees are sorted, and the nonzero buckets are read back in ascending
    order.  Each method is proved equal to a specification function, and the
    meaning of that function is proved on the flattened series `Flat`. */
module SeriesArithmetic {
  import opened Wrappers
  import opened Dicts
  import opened Sums
  import opened Monomials
  import opened Polynomials
  import opened Sorting
  import opened SeriesBuckets

  /** `SeriesData(base_ring, term_list, precision)`. */
  datatype SeriesData = SeriesData(baseRing: RingId, terms: Buckets, cap: int)

  /** Each bucket of `r` is a bucket of `l`. */
  ghost predicate ItemsOf(r: Buckets, l: Buckets) {
    forall i :: 0 <= i < |r| ==> r[i] in l
  }

  lemma ItemsOfFacts(r: Buckets, l: Buckets)
    requires ItemsOf(r, l)
    ensures BucketsOk(l) ==> BucketsOk(r)
    ensures BucketsValid(l) ==> BucketsValid(r)
  {
    forall i | 0 <= i < |r|
      ensures exists j :: 0 <= j < |l| && l[j] == r[i]
    {
      assert r[i] in l;
    }
  }

  lemma NegDistinct(p: PolynomialData)
    requires DistinctKeys(p.terms)
    ensures DistinctKeys(Negation(p).terms)
  {
    assert DistinctKeys(NegTerms(p.terms));
    NonZeroFacts(NegTerms(p.terms));
  }

  lemma ProductDistinct(p: PolynomialData, q: PolynomialData)
    ensures DistinctKeys(ProductOf(p, q).terms)
  {
    AccAllFacts([], ProductTerms(p.terms, q.terms));
    NonZeroFacts(AccAll([], ProductTerms(p.terms, q.terms)));
  }

  lemma MulResultFacts(p: PolynomialData, q: PolynomialData)
    ensures MulResult(p, q).Success? <==> p.baseRing == q.baseRing
    ensures MulResult(p, q).Success? ==> DistinctKeys(MulResult(p, q).value.terms)
  {
    ProductDistinct(p, q);
  }

  lemma GetBucket(D: Buckets, k: int)
    requires BucketsOk(D)
    ensures DistinctKeys(Get(D, k, NoBucket).terms)
  {
  }

  // ------------------------------------------------------------ reading the dictionary back

  lemma EmitStep(D: Buckets, ks: seq<int>, i: nat)
    requires i < |ks|
    ensures Emit(D, ks[..i + 1], true) ==
      if ZeroPoly(Get(D, ks[i], NoBucket)) then Emit(D, ks[..i], true)
      else Emit(D, ks[..i], true) + [Item(ks[i], Get(D, ks[i], NoBucket))]
  {
    assert ks[..i + 1][..i] == ks[..i];
  }

  /** `sorted_degrees = list(term_dict); sorted_degrees.sort()` and the loop
      that appends the nonzero buckets to `newterm_list`. */
  method Collect(D: Buckets) returns (out: Buckets)
    requires DistinctKeys(D) && BucketsOk(D)
    ensures out == Finish(D, true)
  {
    var ks := Sort(Keys(D));
    out := [];
    for i := 0 to |ks|
      invariant out == Emit(D, ks[..i], true)
    {
      EmitStep(D, ks, i);
      var c := Get(D, ks[i], NoBucket);
      GetBucket(D, ks[i]);
      var z := IsZero(c);
      if !z {
        assert !ZeroPoly(c);
        out := out + [Item(ks[i], c)];
      } else {
        assert ZeroPoly(c);
      }
    }
    assert ks[..|ks|] == ks;
  }

  // ------------------------------------------------------------ sum

  /** `dict(term_list)`: a later bucket of the same degree replaces an earlier one. */
  function DictOf(l: Buckets): Buckets {
    if |l| == 0 then [] else Put(DictOf(l[..|l| - 1]), l[|l| - 1].key, l[|l| - 1].val)
  }

  lemma {:induction false} DictOfFacts(l: Buckets)
    ensures DistinctKeys(DictOf(l)) && ItemsOf(DictOf(l), l)
  {
    if |l| > 0 {
      var init := l[..|l| - 1];
      var x := l[|l| - 1];
      DictOfFacts(init);
      var d := DictOf(init);
      PutFacts(d, x.key, x.val);
      var r := DictOf(l);
      assert l == init + [x];
      forall i | 0 <= i < |r|
        ensures r[i] in l
      {
        if i < |d| && r[i] != x {
          assert r[i] == d[i];
          assert d[i] in init;
        }
      }
    }
  }

  /** On a list with distinct keys, `dict(term_list)` keeps the list as it is. */
  lemma {:induction false} DictOfDistinct(l: Buckets)
    requires DistinctKeys(l)
    ensures DictOf(l) == l
  {
    if |l| > 0 {
      var init := l[..|l| - 1];
      var x := l[|l| - 1];
      assert l == init + [x];
      assert DistinctKeys(init);
      DictOfDistinct(init);
      forall j | 0 <= j < |init|
        ensures init[j].key != x.key
      {
        assert init[j] == l[j];
      }
      HasIff(init, x.key);
    }
  }

  /** The buckets of `self` that `__add__` keeps: those of degree below the cap. */
  function BelowCap(s: Buckets, cap: int): Buckets {
    if |s| == 0 then [] else (if s[0].key < cap then [s[0]] else []) + BelowCap(s[1..], cap)
  }

  lemma {:induction false} BelowCapFacts(s: Buckets, cap: int)
    ensures ItemsOf(BelowCap(s, cap), s)
    ensures forall i :: 0 <= i < |BelowCap(s, cap)| ==> BelowCap(s, cap)[i].key < cap
    ensures forall k :: Coeff(Flat(BelowCap(s, cap)), k) == if k.deg < cap then Coeff(Flat(s), k) else 0
  {
    if |s| > 0 {
      BelowCapFacts(s[1..], cap);
      var head: Buckets := if s[0].key < cap then [s[0]] else [];
      var b := BelowCap(s, cap);
      assert b == head + BelowCap(s[1..], cap);
      FlatAppend(head, BelowCap(s[1..], cap));
      forall i | 0 <= i < |b|
        ensures b[i] in s && b[i].key < cap
      {
        if i >= |head| {
          assert b[i] == BelowCap(s[1..], cap)[i - |head|];
        }
      }
      forall k
        ensures Coeff(Flat(b), k) == if k.deg < cap then Coeff(Flat(s), k) else 0
      {
        CoeffAppend(Flat(head), Flat(BelowCap(s[1..], cap)), k);
        CoeffAppend(Lift(s[0].key, s[0].val.terms), Flat(s[1..]), k);
        CoeffLift(s[0].key, s[0].val.terms, k);
        if s[0].key < cap {
          FlatSingle(s[0]);
        }
      }
    }
  }

  /** `f + g`: the buckets of `g` with those of `f` below `g`'s cap added in,
      read back in ascending order without zero buckets; cap `g.cap`, base
      ring `f`'s. */
  ghost function SumSeries(f: SeriesData, g: SeriesData): SeriesData {
    SeriesData(f.baseRing, Finish(Gather(DictOf(g.terms), BelowCap(f.terms, g.cap)), true), g.cap)
  }

  /** `term_dict[n] += c`, falling back to `term_dict[n] = c` on `KeyError`. */
  method Accumulate(D: Buckets, n: int, c: PolynomialData) returns (D': Buckets)
    requires DistinctKeys(D) && BucketsOk(D) && DistinctKeys(c.terms)
    ensures D' == AddInto(D, n, c)
  {
    if Has(D, n) {
      var sum := Add(D[Find(D, n)].val, c);
      D' := Put(D, n, sum);
    } else {
      D' := Put(D, n, c);
    }
  }

  lemma GatherCons(D: Buckets, x: Bucket, rest: Buckets)
    ensures Gather(D, [x] + rest) == Gather(AddInto(D, x.key, x.val), rest)
  {
    assert ([x] + rest)[1..] == rest;
  }

  /** One pass of the loop over `self.term_list`. */
  lemma AddStep(D: Buckets, a: Buckets, cap: int, i: nat, target: Buckets)
    requires i < |a| && DistinctKeys(D) && BucketsOk(D) && BucketsOk(a)
    requires Gather(D, BelowCap(a[i..], cap)) == target
    ensures a[i].key < cap ==>
      var D' := AddInto(D, a[i].key, a[i].val);
      DistinctKeys(D') && BucketsOk(D') && Gather(D', BelowCap(a[i + 1..], cap)) == target
    ensures a[i].key >= cap ==> Gather(D, BelowCap(a[i + 1..], cap)) == target
  {
    assert a[i..][1..] == a[i + 1..];
    if a[i].key < cap {
      GatherCons(D, a[i], BelowCap(a[i + 1..], cap));
      AddIntoFacts(D, a[i].key, a[i].val);
    } else {
      assert BelowCap(a[i..], cap) == [] + BelowCap(a[i..][1..], cap);
      assert [] + BelowCap(a[i + 1..], cap) == BelowCap(a[i + 1..], cap);
    }
  }

  method AddSeries(f: SeriesData, g: SeriesData) returns (r: SeriesData)
    requires BucketsOk(f.terms) && BucketsOk(g.terms)
    ensures r == SumSeries(f, g)
  {
    DictOfFacts(g.terms);
    ItemsOfFacts(DictOf(g.terms), g.terms);
    var termDict := DictOf(g.terms);
    ghost var target := Gather(termDict, BelowCap(f.terms, g.cap));
    assert f.terms[0..] == f.terms;
    for i := 0 to |f.terms|
      invariant DistinctKeys(termDict) && BucketsOk(termDict)
      invariant Gather(termDict, BelowCap(f.terms[i..], g.cap)) == target
    {
      AddStep(termDict, f.terms, g.cap, i, target);
      var deg, coeff := f.terms[i].key, f.terms[i].val;
      if deg < g.cap {
        termDict := Accumulate(termDict, deg, coeff);
      }
    }
    assert f.terms[|f.terms|..] == [];
    var newTerms := Collect(termDict);
    r := SeriesData(f.baseRing, newTerms, g.cap);
  }

  /** The sum keeps `f`'s base ring and takes `g`'s cap; its degrees ascend
      strictly, it has no zero bucket, and each degree is one of `g` or one of
      `f` below the cap. */
  lemma SumSeriesShape(f: SeriesData, g: SeriesData)
    requires BucketsOk(f.terms) && BucketsOk(g.terms)
    ensures SumSeries(f, g).baseRing == f.baseRing && SumSeries(f, g).cap == g.cap
    ensures Ascending(SumSeries(f, g).terms) && NoZeroBuckets(SumSeries(f, g).terms)
    ensures BucketsOk(SumSeries(f, g).terms)
    ensures BucketsValid(f.terms) && BucketsValid(g.terms) ==> BucketsValid(SumSeries(f, g).terms)
    ensures forall i :: 0 <= i < |SumSeries(f, g).terms| ==>
      var n := SumSeries(f, g).terms[i].key; Has(g.terms, n) || (Has(f.terms, n) && n < g.cap)
  {
    var d := DictOf(g.terms);
    var b := BelowCap(f.terms, g.cap);
    DictOfFacts(g.terms);
    ItemsOfFacts(d, g.terms);
    BelowCapFacts(f.terms, g.cap);
    ItemsOfFacts(b, f.terms);
    GatherFacts(d, b);
    FinishFacts(Gather(d, b), true);
    var r := SumSeries(f, g).terms;
    forall i | 0 <= i < |r|
      ensures Has(g.terms, r[i].key) || (Has(f.terms, r[i].key) && r[i].key < g.cap)
    {
      var n := r[i].key;
      if Has(d, n) {
        HasIff(d, n);
        HasIff(g.terms, n);
        var j :| 0 <= j < |d| && d[j].key == n;
        assert d[j] in g.terms;
      } else {
        HasIff(b, n);
        HasIff(f.terms, n);
        var j :| 0 <= j < |b| && b[j].key == n;
        assert b[j] in f.terms;
      }
    }
  }

  /** Coefficients at a shared degree are summed; `f`'s buckets at or beyond
      `g`'s cap are dropped. */
  lemma SumSeriesCoeffs(f: SeriesData, g: SeriesData)
    requires BucketsOk(f.terms) && BucketsOk(g.terms) && DistinctKeys(g.terms)
    ensures forall k :: (Coeff(Flat(SumSeries(f, g).terms), k)
      == (if k.deg < g.cap then Coeff(Flat(f.terms), k) else 0) + Coeff(Flat(g.terms), k))
  {
    var b := BelowCap(f.terms, g.cap);
    DictOfDistinct(g.terms);
    BelowCapFacts(f.terms, g.cap);
    ItemsOfFacts(b, f.terms);
    GatherFacts(g.terms, b);
    FinishCoeffs(Gather(g.terms, b), true);
    forall k
      ensures Coeff(Flat(SumSeries(f, g).terms), k)
           == (if k.deg < g.cap then Coeff(Flat(f.terms), k) else 0) + Coeff(Flat(g.terms), k)
    {
      CoeffAppend(Flat(g.terms), Flat(b), k);
    }
  }

  // ------------------------------------------------------------ negation and difference

  function NegBuckets(s: Buckets): (r: Buckets)
    ensures |r| == |s|
    ensures forall i :: 0 <= i < |s| ==> r[i] == Item(s[i].key, Negation(s[i].val))
  {
    if |s| == 0 then [] else [Item(s[0].key, Negation(s[0].val))] + NegBuckets(s[1..])
  }

  /** `-f`: every bucket's coefficient negated, degrees and cap kept. */
  function NegSeries(f: SeriesData): SeriesData {
    SeriesData(f.baseRing, NegBuckets(f.terms), f.cap)
  }

  lemma {:induction false} NegFlat(s: Buckets, k: Graded)
    ensures Coeff(Flat(NegBuckets(s)), k) == -Coeff(Flat(s), k)
  {
    if |s| > 0 {
      NegFlat(s[1..], k);
      assert NegBuckets(s)[1..] == NegBuckets(s[1..]);
      CoeffAppend(Lift(s[0].key, Negation(s[0].val).terms), Flat(NegBuckets(s[1..])), k);
      CoeffAppend(Lift(s[0].key, s[0].val.terms), Flat(s[1..]), k);
      CoeffLift(s[0].key, Negation(s[0].val).terms, k);
      CoeffLift(s[0].key, s[0].val.terms, k);
      NegationFacts(s[0].val);
    }
  }

  /** Negation keeps the degrees, the order and the cap, and negates every coefficient. */
  lemma NegSeriesFacts(f: SeriesData)
    ensures NegSeries(f).baseRing == f.baseRing && NegSeries(f).cap == f.cap
    ensures Keys(NegSeries(f).terms) == Keys(f.terms)
    ensures forall k :: Coeff(Flat(NegSeries(f).terms), k) == -Coeff(Flat(f.terms), k)
    ensures Ascending(f.terms) ==> Ascending(NegSeries(f).terms)
    ensures DistinctKeys(f.terms) ==> DistinctKeys(NegSeries(f).terms)
    ensures BucketsOk(f.terms) ==> BucketsOk(NegSeries(f).terms)
    ensures BucketsValid(f.terms) ==> BucketsValid(NegSeries(f).terms)
  {
    var r := NegSeries(f).terms;
    forall k
      ensures Coeff(Flat(r), k) == -Coeff(Flat(f.terms), k)
    {
      NegFlat(f.terms, k);
    }
    forall i | 0 <= i < |f.terms|
      ensures (DistinctKeys(f.terms[i].val.terms) ==> DistinctKeys(r[i].val.terms))
      ensures (Valid(f.terms[i].val) ==> Valid(r[i].val))
    {
      NegationFacts(f.terms[i].val);
      if DistinctKeys(f.terms[i].val.terms) {
        NegDistinct(f.terms[i].val);
      }
    }
  }

  /** `f - g` is `f + (-g)`. */
  method SubSeries(f: SeriesData, g: SeriesData) returns (r: SeriesData)
    requires BucketsOk(f.terms) && BucketsOk(g.terms)
    ensures r == SumSeries(f, NegSeries(g))
  {
    NegSeriesFacts(g);
    r := AddSeries(f, NegSeries(g));
  }

  /** The difference subtracts coefficients, dropping `f`'s buckets beyond the cap. */
  lemma DifferenceCoeffs(f: SeriesData, g: SeriesData)
    requires BucketsOk(f.terms) && BucketsOk(g.terms) && DistinctKeys(g.terms)
    ensures SumSeries(f, NegSeries(g)).cap == g.cap
    ensures forall k :: (Coeff(Flat(SumSeries(f, NegSeries(g)).terms), k)
      == (if k.deg < g.cap then Coeff(Flat(f.terms), k) else 0) - Coeff(Flat(g.terms), k))
  {
    NegSeriesFacts(g);
    SumSeriesCoeffs(f, NegSeries(g));
  }

  // ------------------------------------------------------------ product

  /** One pass of the inner loop over `other.term_list`: the products of `x`
      with the buckets of `b` up to the first whose degree sum reaches the cap
      (the `break`). */
  function MulRow(x: Bucket, b: Buckets, cap: int): Buckets {
    if |b| == 0 then []
    else if x.key + b[0].key < cap then [Item(x.key + b[0].key, ProductOf(x.val, b[0].val))] + MulRow(x, b[1..], cap)
    else []
  }

  /** Every product the nested loops accumulate, row by row. */
  function MulContribs(a: Buckets, b: Buckets, cap: int): Buckets {
    if |a| == 0 then [] else MulRow(a[0], b, cap) + MulContribs(a[1..], b, cap)
  }

  /** The product `x.val * b[j].val` is defined (same base ring) for each pair the row reaches. */
  function RowRingsAgree(x: Bucket, b: Buckets, cap: int): bool {
    if |b| == 0 then true
    else if x.key + b[0].key < cap then x.val.baseRing == b[0].val.baseRing && RowRingsAgree(x, b[1..], cap)
    else true
  }

  function RingsAgree(a: Buckets, b: Buckets, cap: int): bool {
    if |a| == 0 then true else RowRingsAgree(a[0], b, cap) && RingsAgree(a[1..], b, cap)
  }

  /** `f * g`: `TypeError` when two buckets the loops multiply lie over
      different base rings (`PolynomialData.__mul__` returns `NotImplemented`);
      otherwise the accumulated products, read back in ascending order without
      zero buckets; cap `g.cap`, base ring `f`'s. */
  ghost function ProductSeries(f: SeriesData, g: SeriesData): Result<SeriesData> {
    if !RingsAgree(f.terms, g.terms, g.cap) then Failure(TypeError)
    else Success(SeriesData(f.baseRing, Finish(Gather([], MulContribs(f.terms, g.terms, g.cap)), true), g.cap))
  }

  lemma MulOuter(a: Buckets, b: Buckets, cap: int, i: nat)
    requires i < |a|
    ensures MulContribs(a[i..], b, cap) == MulRow(a[i], b, cap) + MulContribs(a[i + 1..], b, cap)
    ensures RingsAgree(a[i..], b, cap) == (RowRingsAgree(a[i], b, cap) && RingsAgree(a[i + 1..], b, cap))
  {
    assert a[i..][1..] == a[i + 1..];
  }

  lemma MulInner(D: Buckets, D': Buckets, x: Bucket, b: Buckets, j: nat, cap: int, target: Buckets)
    requires j < |b| && x.key + b[j].key < cap && DistinctKeys(D) && BucketsOk(D)
    requires Gather(D, MulRow(x, b[j..], cap)) == target
    requires D' == AddInto(D, x.key + b[j].key, ProductOf(x.val, b[j].val))
    ensures Gather(D', MulRow(x, b[j + 1..], cap)) == target
  {
    assert b[j..][1..] == b[j + 1..];
    var c := Item(x.key + b[j].key, ProductOf(x.val, b[j].val));
    assert MulRow(x, b[j..], cap) == [c] + MulRow(x, b[j + 1..], cap);
    GatherCons(D, c, MulRow(x, b[j + 1..], cap));
  }

  lemma {:induction false} GatherAppend(D: Buckets, a: Buckets, b: Buckets)
    ensures Gather(D, a + b) == Gather(Gather(D, a), b)
    decreases |a|
  {
    if |a| > 0 {
      assert (a + b)[1..] == a[1..] + b;
      GatherAppend(AddInto(D, a[0].key, a[0].val), a[1..], b);
    } else {
      assert a + b == b;
    }
  }

  lemma RowAgreeStep(x: Bucket, b: Buckets, j: nat, cap: int)
    requires j < |b| && x.key + b[j].key < cap
    ensures RowRingsAgree(x, b[j..], cap) == (x.val.baseRing == b[j].val.baseRing && RowRingsAgree(x, b[j + 1..], cap))
  {
    assert b[j..][1..] == b[j + 1..];
  }

  /** The `break`: once a degree sum reaches the cap, the row contributes nothing more. */
  lemma MulBreak(x: Bucket, b: Buckets, j: nat, cap: int)
    requires j <= |b| && (j < |b| ==> x.key + b[j].key >= cap)
    ensures MulRow(x, b[j..], cap) == [] && RowRingsAgree(x, b[j..], cap)
  {
  }

  lemma BucketsAppend(a: Buckets, b: Buckets)
    ensures BucketsOk(a) && BucketsOk(b) ==> BucketsOk(a + b)
    ensures BucketsValid(a) && BucketsValid(b) ==> BucketsValid(a + b)
  {
    assert forall i :: |a| <= i < |a + b| ==> (a + b)[i] == b[i - |a|];
  }

  lemma {:induction false} MulRowOk(x: Bucket, b: Buckets, cap: int)
    ensures BucketsOk(MulRow(x, b, cap))
    ensures Valid(x.val) && BucketsValid(b) ==> BucketsValid(MulRow(x, b, cap))
  {
    if |b| > 0 && x.key + b[0].key < cap {
      MulRowOk(x, b[1..], cap);
      ProductDistinct(x.val, b[0].val);
      if Valid(x.val) && BucketsValid(b) {
        ProductValid(x.val, b[0].val);
      }
      BucketsAppend([Item(x.key + b[0].key, ProductOf(x.val, b[0].val))], MulRow(x, b[1..], cap));
    }
  }

  lemma {:induction false} MulContribsOk(a: Buckets, b: Buckets, cap: int)
    ensures BucketsOk(MulContribs(a, b, cap))
    ensures BucketsValid(a) && BucketsValid(b) ==> BucketsValid(MulContribs(a, b, cap))
  {
    if |a| > 0 {
      MulRowOk(a[0], b, cap);
      MulContribsOk(a[1..], b, cap);
      BucketsAppend(MulRow(a[0], b, cap), MulContribs(a[1..], b, cap));
    }
  }

  /** `term_dict[deg + deg1] += coeff * coeff1` for the bucket `x` of `self`
      and the bucket `b[j]` of `other`; `ok` is false when the product raises
      `TypeError`.  `target` is what the rest of the row accumulates to. */
  method AccumulateProduct(D: Buckets, x: Bucket, b: Buckets, j: nat, ghost cap: int, ghost target: Buckets)
    returns (ok: bool, D': Buckets)
    requires j < |b| && x.key + b[j].key < cap && DistinctKeys(D) && BucketsOk(D)
    requires Gather(D, MulRow(x, b[j..], cap)) == target
    ensures ok == (x.val.baseRing == b[j].val.baseRing)
    ensures ok ==> DistinctKeys(D') && BucketsOk(D') && Gather(D', MulRow(x, b[j + 1..], cap)) == target
  {
    var prod := MulResult(x.val, b[j].val);
    if prod.Failure? {
      return false, D;
    }
    ProductDistinct(x.val, b[j].val);
    AddIntoFacts(D, x.key + b[j].key, prod.value);
    D' := Accumulate(D, x.key + b[j].key, prod.value);
    MulInner(D, D', x, b, j, cap, target);
    return true, D';
  }

  /** The inner loop of `__mul__` for one bucket `x` of `self`: `x` times the
      buckets of `other`, in order, until a degree sum reaches the cap (the
      `break`).  `ok` is false when a product raised `TypeError`. */
  method MulRowInto(D: Buckets, x: Bucket, b: Buckets, cap: int) returns (ok: bool, D': Buckets)
    requires DistinctKeys(D) && BucketsOk(D)
    ensures ok == RowRingsAgree(x, b, cap)
    ensures ok ==> D' == Gather(D, MulRow(x, b, cap)) && DistinctKeys(D') && BucketsOk(D')
  {
    ghost var target := Gather(D, MulRow(x, b, cap));
    D' := D;
    var j := 0;
    assert b[0..] == b;
    while j < |b| && x.key + b[j].key < cap
      invariant j <= |b|
      invariant DistinctKeys(D') && BucketsOk(D')
      invariant Gather(D', MulRow(x, b[j..], cap)) == target
      invariant RowRingsAgree(x, b[j..], cap) == RowRingsAgree(x, b, cap)
    {
      RowAgreeStep(x, b, j, cap);
      var fine, next := AccumulateProduct(D', x, b, j, cap, target);
      if !fine {
        return false, D';
      }
      D' := next;
      j := j + 1;
    }
    MulBreak(x, b, j, cap);
    return true, D';
  }

  method MulSeries(f: SeriesData, g: SeriesData) returns (r: Result<SeriesData>)
    requires BucketsOk(f.terms) && BucketsOk(g.terms)
    ensures r == ProductSeries(f, g)
  {
    ghost var target := Gather([], MulContribs(f.terms, g.terms, g.cap));
    var termDict: Buckets := [];
    assert f.terms[0..] == f.terms;
    for i := 0 to |f.terms|
      invariant DistinctKeys(termDict) && BucketsOk(termDict)
      invariant Gather(termDict, MulContribs(f.terms[i..], g.terms, g.cap)) == target
      invariant RingsAgree(f.terms[i..], g.terms, g.cap) == RingsAgree(f.terms, g.terms, g.cap)
    {
      MulOuter(f.terms, g.terms, g.cap, i);
      var ok, next := MulRowInto(termDict, f.terms[i], g.terms, g.cap);
      if !ok {
        return Failure(TypeError);
      }
      GatherAppend(termDict, MulRow(f.terms[i], g.terms, g.cap), MulContribs(f.terms[i + 1..], g.terms, g.cap));
      termDict := next;
    }
    assert f.terms[|f.terms|..] == [];
    var newTerms := Collect(termDict);
    return Success(SeriesData(f.baseRing, newTerms, g.cap));
  }
}
