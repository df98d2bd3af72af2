/** The read-only queries on a series: `is_homogeneous`, `degree`,
    `filtration_weight`, `__getitem__`, `is_unit`, the guards of
    `__truediv__`, and the doubling loop of `inverse`.

    Each scanning loop is proved against the flattened series: what it
    returns is stated as a fact about the coefficients of y^m·T^N. */
module SeriesQueries {
  import opened Wrappers
  import opened Dicts
  import opened Sums
  import opened Monomials
  import opened Polynomials
  import opened SeriesBuckets
  import opened SeriesArithmetic
  import opened SeriesProducts
  import opened PowerSeriesRings
  import opened SeriesPower

  lemma AscendingDistinct(s: Buckets)
    requires Ascending(s)
    ensures DistinctKeys(s)
  {
  }

  /** A bucket whose polynomial is not zero gives the flattened series a
      nonzero coefficient at its degree. */
  lemma NonZeroBucket(s: Buckets, i: nat)
    requires Ascending(s) && i < |s| && !ZeroPoly(s[i].val)
    ensures exists m :: Coeff(Flat(s), Graded(s[i].key, m)) != 0
  {
    var m :| Coeff(s[i].val.terms, m) != 0;
    AscendingDistinct(s);
    FlatDistinct(s, s[i].key, m);
    assert Find(s, s[i].key) == i;
  }

  /** A degree with no nonzero bucket has no nonzero coefficient. */
  lemma ZeroDegree(s: Buckets, n: int)
    requires Ascending(s)
    requires forall i :: 0 <= i < |s| && s[i].key == n ==> ZeroPoly(s[i].val)
    ensures forall m :: Coeff(Flat(s), Graded(n, m)) == 0
  {
    AscendingDistinct(s);
    forall m
      ensures Coeff(Flat(s), Graded(n, m)) == 0
    {
      FlatDistinct(s, n, m);
    }
  }

  // ------------------------------------------------------------ is_homogeneous

  /** The number of nonzero buckets. */
  ghost function NonZeroCount(t: Buckets): nat {
    if |t| == 0 then 0 else NonZeroCount(t[..|t| - 1]) + (if ZeroPoly(t[|t| - 1].val) then 0 else 1)
  }

  /** No two buckets are both nonzero. */
  ghost predicate AtMostOneNonZero(t: Buckets) {
    forall i, j :: 0 <= i < j < |t| ==> ZeroPoly(t[i].val) || ZeroPoly(t[j].val)
  }

  ghost predicate AllZero(t: Buckets) {
    forall i :: 0 <= i < |t| ==> ZeroPoly(t[i].val)
  }

  lemma {:induction false} CountAtMostOne(t: Buckets)
    ensures NonZeroCount(t) == 0 <==> AllZero(t)
    ensures NonZeroCount(t) <= 1 <==> AtMostOneNonZero(t)
  {
    if |t| > 0 {
      var init := t[..|t| - 1];
      var n := |t| - 1;
      CountAtMostOne(init);
      assert forall i :: 0 <= i < n ==> init[i] == t[i];
      if !ZeroPoly(t[n].val) && NonZeroCount(init) == 1 {
        var i :| 0 <= i < n && !ZeroPoly(init[i].val);
        assert !(ZeroPoly(t[i].val) || ZeroPoly(t[n].val));
      }
    }
  }

  method IsHomogeneous(s: SeriesData) returns (r: bool)
    requires BucketsOk(s.terms)
    ensures r <==> AtMostOneNonZero(s.terms)
  {
    var nonZeroTerms := 0;
    for i := 0 to |s.terms|
      invariant nonZeroTerms == NonZeroCount(s.terms[..i]) && nonZeroTerms <= 1
    {
      assert s.terms[..i + 1][..i] == s.terms[..i];
      var z := IsZero(s.terms[i].val);
      if z {
        assert ZeroPoly(s.terms[i].val);
      } else {
        assert !ZeroPoly(s.terms[i].val);
      }
      if !z {
        nonZeroTerms := nonZeroTerms + 1;
      }
      if nonZeroTerms > 1 {
        var prefix := s.terms[..i + 1];
        CountAtMostOne(prefix);
        ghost var a, b :| 0 <= a < b < |prefix| && !ZeroPoly(prefix[a].val) && !ZeroPoly(prefix[b].val);
        assert prefix[a] == s.terms[a] && prefix[b] == s.terms[b];
        return false;
      }
    }
    assert s.terms[..|s.terms|] == s.terms;
    CountAtMostOne(s.terms);
    return true;
  }

  // ------------------------------------------------------------ degree and filtration weight

  /** Bucket `i` is the last nonzero one. */
  ghost predicate LastNonZeroAt(t: Buckets, i: int) {
    0 <= i < |t| && !ZeroPoly(t[i].val) && forall j :: i < j < |t| ==> ZeroPoly(t[j].val)
  }

  /** Bucket `i` is the first nonzero one. */
  ghost predicate FirstNonZeroAt(t: Buckets, i: int) {
    0 <= i < |t| && !ZeroPoly(t[i].val) && forall j :: 0 <= j < i ==> ZeroPoly(t[j].val)
  }

  /** `degree`: the degree of the last nonzero bucket, or -1 when every bucket
      is zero.  On an ascending series that is the largest T-degree with a
      nonzero coefficient. */
  method Degree(s: SeriesData) returns (d: int)
    requires BucketsOk(s.terms)
    ensures AllZero(s.terms) ==> d == -1
    ensures !AllZero(s.terms) ==> exists i :: LastNonZeroAt(s.terms, i) && d == s.terms[i].key
    ensures Ascending(s.terms) ==> forall k: Graded :: k.deg > d ==> Coeff(Flat(s.terms), k) == 0
    ensures Ascending(s.terms) && !AllZero(s.terms) ==> exists m :: Coeff(Flat(s.terms), Graded(d, m)) != 0
  {
    var t := s.terms;
    d := -1;
    ghost var last := -1;
    for i := 0 to |t|
      invariant -1 <= last < i
      invariant last == -1 ==> d == -1 && forall j :: 0 <= j < i ==> ZeroPoly(t[j].val)
      invariant last >= 0 ==> !ZeroPoly(t[last].val) && d == t[last].key
      invariant last >= 0 ==> forall j :: last < j < i ==> ZeroPoly(t[j].val)
    {
      var z := IsZero(t[i].val);
      if z {
        assert ZeroPoly(t[i].val);
      } else {
        assert !ZeroPoly(t[i].val);
      }
      if !z {
        d, last := t[i].key, i;
      }
    }
    if last >= 0 {
      assert LastNonZeroAt(t, last);
    }
    if Ascending(t) {
      forall k: Graded | k.deg > d
        ensures Coeff(Flat(t), k) == 0
      {
        ZeroDegree(t, k.deg);
        assert Coeff(Flat(t), Graded(k.deg, k.mono)) == 0;
      }
      if last >= 0 {
        NonZeroBucket(t, last);
      }
    }
  }

  /** `filtration_weight` (with the ring's cap for `parent()._precision_cap`):
      the degree of the first nonzero bucket, or the cap when every bucket is
      zero.  On an ascending series no coefficient lies below it. */
  method FiltrationWeight(r: SeriesRing, s: SeriesData) returns (w: int)
    requires BucketsOk(s.terms)
    ensures AllZero(s.terms) ==> w == r.cap
    ensures !AllZero(s.terms) ==> exists i :: FirstNonZeroAt(s.terms, i) && w == s.terms[i].key
    ensures Ascending(s.terms) ==> forall k: Graded :: k.deg < w ==> Coeff(Flat(s.terms), k) == 0
    ensures Ascending(s.terms) && !AllZero(s.terms) ==> exists m :: Coeff(Flat(s.terms), Graded(w, m)) != 0
  {
    var t := s.terms;
    for i := 0 to |t|
      invariant forall j :: 0 <= j < i ==> ZeroPoly(t[j].val)
    {
      var z := IsZero(t[i].val);
      if z {
        assert ZeroPoly(t[i].val);
      } else {
        assert !ZeroPoly(t[i].val);
      }
      if !z {
        assert FirstNonZeroAt(t, i);
        if Ascending(t) {
          forall k: Graded | k.deg < t[i].key
            ensures Coeff(Flat(t), k) == 0
          {
            ZeroDegree(t, k.deg);
            assert Coeff(Flat(t), Graded(k.deg, k.mono)) == 0;
          }
          NonZeroBucket(t, i);
        }
        return t[i].key;
      }
    }
    if Ascending(t) {
      forall k
        ensures Coeff(Flat(t), k) == 0
      {
        ZeroDegree(t, k.deg);
        assert Coeff(Flat(t), Graded(k.deg, k.mono)) == 0;
      }
    }
    return r.cap;
  }

  // ------------------------------------------------------------ __getitem__

  /** `sum(a * b for a, b in zip(degs, weights))`. */
  function Dot(a: seq<int>, b: seq<int>): int
    requires |a| == |b|
  {
    if |a| == 0 then 0 else a[0] * b[0] + Dot(a[1..], b[1..])
  }

  /** `s[degs]`: `AssertionError` unless there is one exponent per weight;
      otherwise the coefficient of the monomial with exponent vector `degs`
      in the bucket of its weighted degree, read by a scan that stops past
      that degree.  On an ascending series that is the coefficient of
      y^degs·T^(degs·weights). */
  method GetItem(r: SeriesRing, s: SeriesData, degs: seq<int>) returns (c: Result<int>)
    requires BucketsOk(s.terms)
    ensures c.Failure? <==> |degs| != |r.weights|
    ensures c.Failure? ==> c.error == AssertionError
    ensures c.Success? && Ascending(s.terms) ==>
      c.value == Coeff(Flat(s.terms), Graded(Dot(degs, r.weights), DenseToSparse(degs)))
  {
    if |degs| != |r.weights| {
      return Failure(AssertionError);
    }
    var target := Dot(degs, r.weights);
    var m := SparseFromDense(degs);
    var t := s.terms;
    ghost var k := Graded(target, m);
    var i := 0;
    while i < |t|
      invariant 0 <= i <= |t|
      invariant forall j :: 0 <= j < i ==> t[j].key < target
    {
      if t[i].key == target {
        if Ascending(t) {
          AscendingDistinct(t);
          FlatDistinct(t, target, m);
          assert Find(t, target) == i;
        }
        return Success(Lookup(t[i].val, m));
      } else if t[i].key > target {
        break;
      }
      i := i + 1;
    }
    if Ascending(t) {
      ZeroDegree(t, target);
      assert Coeff(Flat(t), k) == 0;
    }
    return Success(0);
  }

  // ------------------------------------------------------------ is_unit and __truediv__

  /** A unit of the integers, the coefficients of this model. */
  predicate IntUnit(c: int) {
    c == 1 || c == -1
  }

  /** `is_unit`: `IndexError` on a series with no buckets; otherwise the
      first bucket must have degree 0 and a unit constant term.  On a shaped
      series that is exactly: the constant coefficient is a unit. */
  function IsUnit(s: SeriesData): (r: Result<bool>)
    requires BucketsOk(s.terms)
    ensures r.Failure? <==> s.terms == []
    ensures r.Failure? ==> r.error == IndexError
    ensures r.Success? && Shaped(s) ==> (r.value <==> IntUnit(Coeff(Flat(s.terms), Graded(0, []))))
  {
    if |s.terms| == 0 then Failure(IndexError)
    else
      AscendingUnit(s);
      Success(s.terms[0].key == 0 && IntUnit(Lookup(s.terms[0].val, [])))
  }

  lemma AscendingUnit(s: SeriesData)
    requires |s.terms| > 0 && BucketsOk(s.terms)
    ensures Shaped(s) ==>
      Coeff(Flat(s.terms), Graded(0, [])) == if s.terms[0].key == 0 then Coeff(s.terms[0].val.terms, []) else 0
  {
    if Shaped(s) {
      var t := s.terms;
      AscendingDistinct(t);
      FlatDistinct(t, 0, []);
      if t[0].key == 0 {
        assert Find(t, 0) == 0;
      } else {
        HasIff(t, 0);
      }
    }
  }

  /** `f / g` with `inv` for `g.inverse()`: `is_unit`'s `IndexError` for a
      `g` with no buckets, `ValueError` when `g` is not a unit, the ring's
      zero when `f` equals it, and `f * inv` otherwise.  Whenever the
      quotient is defined on series over one base ring, its coefficients are
      those of the truncated product f·inv, the zero shortcut included. */
  method TrueDiv(r: SeriesRing, f: SeriesData, g: SeriesData, inv: SeriesData) returns (q: Result<SeriesData>)
    requires BucketsOk(f.terms) && BucketsOk(g.terms) && BucketsOk(inv.terms)
    ensures q.Failure? && q.error == IndexError <==> g.terms == []
    ensures q.Failure? && q.error == ValueError <==> IsUnit(g) == Success(false)
    ensures IsUnit(g) == Success(true) && f.terms == r.zero.terms && f.cap == r.zero.cap ==> q == Success(r.zero)
    ensures IsUnit(g) == Success(true) && Shaped(f) && Shaped(inv) && f.baseRing == inv.baseRing ==> q.Success?
    ensures q.Success? && Shaped(f) && Shaped(inv) && f.baseRing == inv.baseRing && r.zero.terms == [] ==>
      SameCoeffs(Flat(q.value.terms), SeriesConv(Flat(f.terms), Flat(inv.terms), inv.cap))
  {
    var u := IsUnit(g);
    if u.Failure? {
      return Failure(u.error);
    }
    if !u.value {
      return Failure(ValueError);
    }
    if f.terms == r.zero.terms && f.cap == r.zero.cap {
      if r.zero.terms == [] {
        assert Flat(f.terms) == [];
        assert SeriesConv([], Flat(inv.terms), inv.cap) == [];
      }
      return Success(r.zero);
    }
    if Shaped(f) && Shaped(inv) && f.baseRing == inv.baseRing {
      MulShaped(f, inv);
    }
    ProductSeriesShape(f, inv);
    q := MulSeries(f, inv);
  }

  /** A ring built by `PowerSeriesRing` has a zero with no buckets. */
  lemma ZeroHasNoBuckets(r: SeriesRing, totalDegree: bool)
    requires Constructed(r, totalDegree)
    ensures r.zero.terms == [] && r.zero.cap == r.cap && r.zero.baseRing == r.baseRing
  {
  }

  // ------------------------------------------------------------ inverse

  function Pow2(k: nat): nat {
    if k == 0 then 1 else 2 * Pow2(k - 1)
  }

  /** `k` Newton steps from `x`. */
  function Iterate<T>(step: T -> T, x: T, k: nat): T {
    if k == 0 then x else step(Iterate(step, x, k - 1))
  }

  /** The loop of `inverse`: double `N` from 1 until it reaches the cap,
      applying one Newton step per doubling (`step` stands for
      x ↦ x + x·(1 − self·x)).  It stops at the first power of two at or
      beyond the cap, after that many steps. */
  method NewtonLoop<T>(cap: int, x0: T, step: T -> T) returns (x: T, n: int, ghost k: nat)
    ensures n == Pow2(k) && n >= cap && (k > 0 ==> Pow2(k - 1) < cap)
    ensures x == Iterate(step, x0, k)
  {
    x, n, k := x0, 1, 0;
    while n < cap
      invariant n == Pow2(k) && (k > 0 ==> Pow2(k - 1) < cap)
      invariant x == Iterate(step, x0, k)
      decreases cap - n
    {
      n := 2 * n;
      x := step(x);
      k := k + 1;
    }
  }
}
