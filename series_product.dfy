/** What the truncated product of two series means.

    In the ambient ring k[y][T] the product of two flattened series is the
    ordinary product of term lists (`Sums.Conv`) with the monomials multiplied
    (`GOp`) and the pairs whose T-degrees sum to the cap or more dropped
    (`GKeep`).  `SeriesArithmetic.ProductSeries` computes exactly that, the
    `break` of its inner loop included, as long as the right factor's degrees
    ascend (`SeriesPower.Shaped`, which the ring's own series keep). */
module SeriesProducts {
  import opened Wrappers
  import opened Dicts
  import opened Sums
  import opened Monomials
  import opened Polynomials
  import opened SeriesBuckets
  import opened SeriesArithmetic

  /** y^m·T^N times y^n·T^M. */
  function GOp(x: Graded, y: Graded): Graded {
    Graded(x.deg + y.deg, Merge(x.mono, y.mono))
  }

  /** The truncation: only products of T-degree below the cap are kept. */
  function GKeep(cap: int): (Graded, Graded) -> bool {
    (x: Graded, y: Graded) => x.deg + y.deg < cap
  }

  /** The truncated product of two flattened series. */
  function SeriesConv(a: Flattened, b: Flattened, cap: int): Flattened {
    Conv(a, b, GOp, GKeep(cap))
  }

  ghost predicate NonDecreasing(s: Buckets) {
    forall i, j :: 0 <= i < j < |s| ==> s[i].key <= s[j].key
  }

  lemma LiftTail(n: int, d: Terms)
    requires |d| > 0
    ensures Lift(n, d)[1..] == Lift(n, d[1..])
  {
  }

  lemma {:induction false} LiftAppend(n: int, a: Terms, b: Terms)
    ensures Lift(n, a + b) == Lift(n, a) + Lift(n, b)
  {
    assert forall i :: |a| <= i < |a + b| ==> (a + b)[i] == b[i - |a|];
  }

  /** One term of a bucket times a whole bucket. */
  lemma {:induction false} LiftRow(dx: int, t: Item<Sparse, int>, dy: int, q: Terms, cap: int)
    ensures Row(Item(Graded(dx, t.key), t.val), Lift(dy, q), GOp, GKeep(cap))
         == if dx + dy < cap then Lift(dx + dy, Row(t, q, Merge, KeepAll)) else []
  {
    if |q| > 0 {
      LiftTail(dy, q);
      LiftRow(dx, t, dy, q[1..], cap);
      if dx + dy < cap {
        var head := Item(Merge(t.key, q[0].key), t.val * q[0].val);
        assert Row(t, q, Merge, KeepAll) == [head] + Row(t, q[1..], Merge, KeepAll);
        LiftAppend(dx + dy, [head], Row(t, q[1..], Merge, KeepAll));
      }
    }
  }

  /** Two buckets multiplied in the ambient ring: one bucket at the summed
      degree when that is below the cap, nothing otherwise. */
  lemma {:induction false} LiftConv(dx: int, p: Terms, dy: int, q: Terms, cap: int)
    ensures SeriesConv(Lift(dx, p), Lift(dy, q), cap)
         == if dx + dy < cap then Lift(dx + dy, Conv(p, q, Merge, KeepAll)) else []
  {
    if |p| > 0 {
      LiftTail(dx, p);
      LiftConv(dx, p[1..], dy, q, cap);
      LiftRow(dx, p[0], dy, q, cap);
      assert Lift(dx, p)[0] == Item(Graded(dx, p[0].key), p[0].val);
      if dx + dy < cap {
        LiftAppend(dx + dy, Row(p[0], q, Merge, KeepAll), Conv(p[1..], q, Merge, KeepAll));
      }
    }
  }

  /** The bucket `(deg + deg1, coeff * coeff1)` that the loop accumulates is
      the product of the two buckets in the ambient ring. */
  lemma BucketProduct(x: Bucket, y: Bucket, cap: int)
    requires x.key + y.key < cap
    ensures SameCoeffs(Flat([Item(x.key + y.key, ProductOf(x.val, y.val))]),
                       SeriesConv(Lift(x.key, x.val.terms), Lift(y.key, y.val.terms), cap))
  {
    var n := x.key + y.key;
    FlatSingle(Item(n, ProductOf(x.val, y.val)));
    LiftConv(x.key, x.val.terms, y.key, y.val.terms, cap);
    ProductFacts(x.val, y.val);
    forall k
      ensures Coeff(Lift(n, ProductOf(x.val, y.val).terms), k) == Coeff(Lift(n, ProductTerms(x.val.terms, y.val.terms)), k)
    {
      CoeffLift(n, ProductOf(x.val, y.val).terms, k);
      CoeffLift(n, ProductTerms(x.val.terms, y.val.terms), k);
    }
  }

  lemma {:induction false} FlatDegrees(b: Buckets, lo: int)
    requires forall j :: 0 <= j < |b| ==> b[j].key >= lo
    ensures forall i :: 0 <= i < |Flat(b)| ==> Flat(b)[i].key.deg >= lo
  {
    if |b| > 0 {
      FlatDegrees(b[1..], lo);
      var l := Lift(b[0].key, b[0].val.terms);
      assert forall i :: |l| <= i < |Flat(b)| ==> Flat(b)[i] == Flat(b[1..])[i - |l|];
    }
  }

  lemma {:induction false} RowBeyondCap(t: Item<Graded, int>, F: Flattened, cap: int)
    requires forall i :: 0 <= i < |F| ==> t.key.deg + F[i].key.deg >= cap
    ensures Row(t, F, GOp, GKeep(cap)) == []
  {
    if |F| > 0 {
      RowBeyondCap(t, F[1..], cap);
    }
  }

  lemma {:induction false} ConvBeyondCap(A: Flattened, F: Flattened, cap: int)
    requires forall i, j :: 0 <= i < |A| && 0 <= j < |F| ==> A[i].key.deg + F[j].key.deg >= cap
    ensures SeriesConv(A, F, cap) == []
  {
    if |A| > 0 {
      RowBeyondCap(A[0], F, cap);
      ConvBeyondCap(A[1..], F, cap);
    }
  }

  /** One row of the nested loops, `break` included, is the bucket `x` times
      the whole of `b` in the ambient ring, provided `b`'s degrees ascend. */
  lemma {:induction false} MulRowFlat(x: Bucket, b: Buckets, cap: int)
    requires NonDecreasing(b)
    ensures SameCoeffs(Flat(MulRow(x, b, cap)), SeriesConv(Lift(x.key, x.val.terms), Flat(b), cap))
  {
    if |b| > 0 && x.key + b[0].key < cap {
      assert NonDecreasing(b[1..]) by {
        forall i, j | 0 <= i < j < |b[1..]|
          ensures b[1..][i].key <= b[1..][j].key
        {
          assert b[1..][i] == b[i + 1] && b[1..][j] == b[j + 1];
        }
      }
      MulRowFlat(x, b[1..], cap);
      MulRowKeep(x, b, cap);
    } else {
      if |b| > 0 {
        assert forall j :: 0 <= j < |b| ==> b[j].key >= b[0].key;
      }
      FlatDegrees(b, cap - x.key);
      ConvBeyondCap(Lift(x.key, x.val.terms), Flat(b), cap);
    }
  }

  /** The step of `MulRowFlat` for a bucket of `b` below the cap. */
  lemma MulRowKeep(x: Bucket, b: Buckets, cap: int)
    requires |b| > 0 && x.key + b[0].key < cap
    requires SameCoeffs(Flat(MulRow(x, b[1..], cap)), SeriesConv(Lift(x.key, x.val.terms), Flat(b[1..]), cap))
    ensures SameCoeffs(Flat(MulRow(x, b, cap)), SeriesConv(Lift(x.key, x.val.terms), Flat(b), cap))
  {
    var X := Lift(x.key, x.val.terms);
    var B0 := Lift(b[0].key, b[0].val.terms);
    var c := Item(x.key + b[0].key, ProductOf(x.val, b[0].val));
    assert Flat(b) == B0 + Flat(b[1..]);
    assert MulRow(x, b, cap) == [c] + MulRow(x, b[1..], cap);
    BucketProduct(x, b[0], cap);
    FlatAppend([c], MulRow(x, b[1..], cap));
    forall k
      ensures Coeff(Flat(MulRow(x, b, cap)), k) == Coeff(SeriesConv(X, Flat(b), cap), k)
    {
      CoeffAppend(Flat([c]), Flat(MulRow(x, b[1..], cap)), k);
      ConvAppendRight(X, B0, Flat(b[1..]), GOp, GKeep(cap), k);
    }
  }

  /** All rows together: the truncated product of the two flattened series. */
  lemma {:induction false} MulContribsFlat(a: Buckets, b: Buckets, cap: int)
    requires NonDecreasing(b)
    ensures SameCoeffs(Flat(MulContribs(a, b, cap)), SeriesConv(Flat(a), Flat(b), cap))
  {
    if |a| > 0 {
      var A0 := Lift(a[0].key, a[0].val.terms);
      MulRowFlat(a[0], b, cap);
      MulContribsFlat(a[1..], b, cap);
      FlatAppend(MulRow(a[0], b, cap), MulContribs(a[1..], b, cap));
      assert Flat(a) == A0 + Flat(a[1..]);
      ConvAppendLeft(A0, Flat(a[1..]), Flat(b), GOp, GKeep(cap));
      forall k
        ensures Coeff(Flat(MulContribs(a, b, cap)), k) == Coeff(SeriesConv(Flat(a), Flat(b), cap), k)
      {
        CoeffAppend(Flat(MulRow(a[0], b, cap)), Flat(MulContribs(a[1..], b, cap)), k);
        CoeffAppend(SeriesConv(A0, Flat(b), cap), SeriesConv(Flat(a[1..]), Flat(b), cap), k);
      }
    }
  }

  lemma {:induction false} MulContribsBelow(a: Buckets, b: Buckets, cap: int)
    ensures forall i :: 0 <= i < |MulContribs(a, b, cap)| ==> MulContribs(a, b, cap)[i].key < cap
  {
    if |a| > 0 {
      MulContribsBelow(a[1..], b, cap);
      MulRowBelow(a[0], b, cap);
      var r := MulRow(a[0], b, cap);
      assert forall i :: |r| <= i < |MulContribs(a, b, cap)| ==> MulContribs(a, b, cap)[i] == MulContribs(a[1..], b, cap)[i - |r|];
    }
  }

  lemma {:induction false} MulRowBelow(x: Bucket, b: Buckets, cap: int)
    ensures forall i :: 0 <= i < |MulRow(x, b, cap)| ==> MulRow(x, b, cap)[i].key < cap
  {
    if |b| > 0 && x.key + b[0].key < cap {
      MulRowBelow(x, b[1..], cap);
    }
  }

  /** `f * g` multiplies the series in k[y][T] truncated at `g`'s cap. */
  lemma ProductSeriesCoeffs(f: SeriesData, g: SeriesData)
    requires BucketsOk(f.terms) && BucketsOk(g.terms) && Ascending(g.terms)
    requires ProductSeries(f, g).Success?
    ensures SameCoeffs(Flat(ProductSeries(f, g).value.terms), SeriesConv(Flat(f.terms), Flat(g.terms), g.cap))
  {
    var cs := MulContribs(f.terms, g.terms, g.cap);
    MulContribsOk(f.terms, g.terms, g.cap);
    GatherFacts([], cs);
    FinishCoeffs(Gather([], cs), true);
    MulContribsFlat(f.terms, g.terms, g.cap);
    forall k
      ensures Coeff(Flat([]) + Flat(cs), k) == Coeff(Flat(cs), k)
    {
      CoeffAppend(Flat([]), Flat(cs), k);
    }
  }

  /** The product fails with `TypeError` exactly when two multiplied buckets
      lie over different base rings; otherwise it keeps `f`'s base ring and
      `g`'s cap, its degrees ascend strictly and stay below the cap, and it has
      no zero bucket. */
  lemma ProductSeriesShape(f: SeriesData, g: SeriesData)
    requires BucketsOk(f.terms) && BucketsOk(g.terms)
    ensures ProductSeries(f, g).Failure? <==> !RingsAgree(f.terms, g.terms, g.cap)
    ensures ProductSeries(f, g).Failure? ==> ProductSeries(f, g).error == TypeError
    ensures ProductSeries(f, g).Success? ==>
      var r := ProductSeries(f, g).value;
      r.baseRing == f.baseRing && r.cap == g.cap && Ascending(r.terms) && NoZeroBuckets(r.terms) &&
      BucketsOk(r.terms) && (forall i :: 0 <= i < |r.terms| ==> r.terms[i].key < g.cap) &&
      (BucketsValid(f.terms) && BucketsValid(g.terms) ==> BucketsValid(r.terms))
  {
    if ProductSeries(f, g).Success? {
      var cs := MulContribs(f.terms, g.terms, g.cap);
      var D := Gather([], cs);
      MulContribsOk(f.terms, g.terms, g.cap);
      GatherFacts([], cs);
      FinishFacts(D, true);
      MulContribsBelow(f.terms, g.terms, g.cap);
      var r := ProductSeries(f, g).value.terms;
      forall i | 0 <= i < |r|
        ensures r[i].key < g.cap
      {
        assert Has(D, r[i].key);
        assert Has(cs, r[i].key);
        HasIff(cs, r[i].key);
      }
    }
  }
}
