/** Worked cases of the series arithmetic, stated for arbitrary coefficient
    polynomials: two single buckets added, two single buckets multiplied,
    and a product whose every degree sum reaches the cap. */
module SeriesExamples {
  import opened Wrappers
  import opened Dicts
  import opened Sums
  import opened Polynomials
  import opened Sorting
  import opened SeriesBuckets
  import opened SeriesArithmetic

  /** `[(5, a)] + [(8, b)] = [(5, a), (8, b)]` at cap 20, for nonzero `a`, `b`. */
  lemma AddExample(ring: RingId, a: PolynomialData, b: PolynomialData)
    requires !ZeroPoly(a) && !ZeroPoly(b)
    ensures SumSeries(SeriesData(ring, [Item(5, a)], 20), SeriesData(ring, [Item(8, b)], 20))
         == SeriesData(ring, [Item(5, a), Item(8, b)], 20)
  {
    var D := [Item(8, b), Item(5, a)];
    AddGathered(a, b);
    AddSorted(D);
    AddEmitted(a, b);
  }

  lemma AddGathered(a: PolynomialData, b: PolynomialData)
    ensures Gather(DictOf([Item(8, b)]), BelowCap([Item(5, a)], 20)) == [Item(8, b), Item(5, a)]
  {
    var g: Buckets := [Item(8, b)];
    var f: Buckets := [Item(5, a)];
    var none: Buckets := [];
    assert g[..0] == none;
    assert DictOf(g) == g;
    assert BelowCap(f[1..], 20) == none;
    assert BelowCap(f, 20) == f;
    assert !Has(g, 5) by {
      HasIff(g, 5);
    }
    assert AddInto(g, 5, a) == g + f;
    assert Gather(g, f) == Gather(g + f, f[1..]);
  }

  lemma AddSorted(D: Buckets)
    requires |D| == 2 && D[0].key == 8 && D[1].key == 5
    ensures Sort(Keys(D)) == [5, 8]
  {
    assert Keys(D) == [8, 5];
    assert [8, 5][1..] == [5];
    assert Sort([5]) == [5];
    assert Insert(8, [5]) == [5, 8];
  }

  lemma AddEmitted(a: PolynomialData, b: PolynomialData)
    requires !ZeroPoly(a) && !ZeroPoly(b)
    ensures Emit([Item(8, b), Item(5, a)], [5, 8], true) == [Item(5, a), Item(8, b)]
  {
    var D := [Item(8, b), Item(5, a)];
    assert [5, 8][..1] == [5] && [5][..0] == [];
    assert Find(D, 5) == 1 && Find(D, 8) == 0;
    assert Get(D, 5, NoBucket) == a && Get(D, 8, NoBucket) == b;
    assert Emit(D, [5], true) == [Item(5, a)];
  }

  /** `[(5, a)] * [(8, b)] = [(13, a·b)]` at cap 20, when `a·b` is not zero. */
  lemma MulExample(ring: RingId, a: PolynomialData, b: PolynomialData)
    requires a.baseRing == b.baseRing && !ZeroPoly(ProductOf(a, b))
    ensures ProductSeries(SeriesData(ring, [Item(5, a)], 20), SeriesData(ring, [Item(8, b)], 20))
         == Success(SeriesData(ring, [Item(13, ProductOf(a, b))], 20))
  {
    var p := ProductOf(a, b);
    SingleProduct(ring, 5, a, 8, b, 20);
    var D := [Item(13, p)];
    assert Keys(D) == [13];
    assert Sort([13]) == [13];
    assert [13][..0] == [];
    assert Get(D, 13, NoBucket) == p;
    assert Emit(D, [13], true) == [Item(13, p)];
  }

  /** The accumulated products of two single buckets below the cap. */
  lemma SingleProduct(ring: RingId, n: int, a: PolynomialData, m: int, b: PolynomialData, cap: int)
    requires a.baseRing == b.baseRing && n + m < cap
    ensures RingsAgree([Item(n, a)], [Item(m, b)], cap)
    ensures var none: Buckets := [];
      Gather(none, MulContribs([Item(n, a)], [Item(m, b)], cap)) == [Item(n + m, ProductOf(a, b))]
  {
    var x: Bucket := Item(n, a);
    var y: Buckets := [Item(m, b)];
    var none: Buckets := [];
    assert y[1..] == none && [x][1..] == none;
    assert MulRow(x, y, cap) == [Item(n + m, ProductOf(a, b))];
    assert MulContribs([x], y, cap) == [Item(n + m, ProductOf(a, b))];
    assert !Has(none, n + m);
    assert AddInto(none, n + m, ProductOf(a, b)) == [Item(n + m, ProductOf(a, b))];
  }

  lemma {:induction false} RowBeyond(x: Bucket, b: Buckets, cap: int)
    requires |b| > 0 && x.key + b[0].key >= cap
    ensures MulRow(x, b, cap) == [] && RowRingsAgree(x, b, cap)
  {
  }

  lemma {:induction false} ContribsBeyond(a: Buckets, b: Buckets, cap: int)
    requires |b| > 0 && forall i :: 0 <= i < |a| ==> a[i].key + b[0].key >= cap
    ensures MulContribs(a, b, cap) == [] && RingsAgree(a, b, cap)
  {
    if |a| > 0 {
      RowBeyond(a[0], b, cap);
      ContribsBeyond(a[1..], b, cap);
    }
  }

  /** When every bucket of `f` meets the cap with the first bucket of `g`,
      the product is the empty series. */
  lemma ProductBeyondCap(f: SeriesData, g: SeriesData)
    requires |g.terms| > 0 && forall i :: 0 <= i < |f.terms| ==> f.terms[i].key + g.terms[0].key >= g.cap
    ensures ProductSeries(f, g) == Success(SeriesData(f.baseRing, [], g.cap))
  {
    ContribsBeyond(f.terms, g.terms, g.cap);
    var none: Buckets := [];
    assert Gather(none, none) == none;
    assert Keys(none) == [] && Sort([]) == [];
  }

  /** `g * g * g` at cap 20 is empty for `g = [(8, b)]`: the square lies at
      degree 16 (or is empty), and 16 + 8 reaches the cap. */
  lemma CubeExample(ring: RingId, b: PolynomialData)
    ensures ProductSeries(SeriesData(ring, [Item(8, b)], 20), SeriesData(ring, [Item(8, b)], 20)).Success?
    ensures ProductSeries(ProductSeries(SeriesData(ring, [Item(8, b)], 20), SeriesData(ring, [Item(8, b)], 20)).value,
                          SeriesData(ring, [Item(8, b)], 20))
         == Success(SeriesData(ring, [], 20))
  {
    var g := SeriesData(ring, [Item(8, b)], 20);
    SingleProduct(ring, 8, b, 8, b, 20);
    var D := [Item(16, ProductOf(b, b))];
    assert Keys(D) == [16];
    assert Sort([16]) == [16];
    var gg := ProductSeries(g, g).value;
    assert gg.terms == Emit(D, [16], true);
    assert forall i :: 0 <= i < |gg.terms| ==> gg.terms[i].key == 16;
    ProductBeyondCap(gg, g);
  }
}
