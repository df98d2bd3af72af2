/** The bucket lists of a capped power series, and the degree dictionaries the
    series arithmetic builds from them.

    A series is a list of buckets `(N, g)` standing for g·T^N, where `g` is a
    `PolynomialData`.  Flattening a bucket list into the ambient ring k[y][T]
    (`Flat`) turns it into an ordinary list of terms keyed by `(N, m)`, so that
    the linear bookkeeping of `Sums` states what a series means: the
    coefficient of y^m·T^N is `Coeff(Flat(s), Graded(N, m))`. */
module SeriesBuckets {
  import opened Dicts
  import opened Sums
  import opened Monomials
  import opened Polynomials
  import opened Sorting

  type Bucket = Item<int, PolynomialData>

  type Buckets = seq<Bucket>

  /** A monomial y^m·T^N of the ambient ring. */
  datatype Graded = Graded(deg: int, mono: Sparse)

  type Flattened = seq<Item<Graded, int>>

  /** The terms of one bucket, placed at T-degree `n`. */
  function Lift(n: int, d: Terms): (r: Flattened)
    ensures |r| == |d|
    ensures forall i :: 0 <= i < |d| ==> r[i] == Item(Graded(n, d[i].key), d[i].val)
  {
    if |d| == 0 then [] else [Item(Graded(n, d[0].key), d[0].val)] + Lift(n, d[1..])
  }

  /** The series as a list of terms of the ambient ring. */
  function Flat(s: Buckets): Flattened {
    if |s| == 0 then [] else Lift(s[0].key, s[0].val.terms) + Flat(s[1..])
  }

  /** Every coefficient is a dictionary. */
  ghost predicate BucketsOk(s: Buckets) {
    forall i :: 0 <= i < |s| ==> DistinctKeys(s[i].val.terms)
  }

  /** Every coefficient is a valid `PolynomialData`. */
  ghost predicate BucketsValid(s: Buckets) {
    forall i :: 0 <= i < |s| ==> Valid(s[i].val)
  }

  /** Degrees strictly ascending, as the code keeps them. */
  ghost predicate Ascending(s: Buckets) {
    forall i, j :: 0 <= i < j < |s| ==> s[i].key < s[j].key
  }

  /** A polynomial all of whose coefficients are zero (`is_zero()`). */
  ghost predicate ZeroPoly(p: PolynomialData) {
    forall k :: Coeff(p.terms, k) == 0
  }

  ghost predicate NoZeroBuckets(s: Buckets) {
    forall i :: 0 <= i < |s| ==> !ZeroPoly(s[i].val)
  }

  // ------------------------------------------------------------ flattening

  lemma {:induction false} CoeffLift(n: int, d: Terms, k: Graded)
    ensures Coeff(Lift(n, d), k) == if k.deg == n then Coeff(d, k.mono) else 0
  {
    if |d| > 0 {
      assert Lift(n, d)[1..] == Lift(n, d[1..]);
      CoeffLift(n, d[1..], k);
    }
  }

  lemma {:induction false} FlatAppend(a: Buckets, b: Buckets)
    ensures Flat(a + b) == Flat(a) + Flat(b)
  {
    if |a| == 0 {
      assert a + b == b;
    } else {
      assert (a + b)[1..] == a[1..] + b;
      FlatAppend(a[1..], b);
    }
  }

  lemma FlatSingle(x: Bucket)
    ensures Flat([x]) == Lift(x.key, x.val.terms)
  {
    assert [x][1..] == [];
  }

  lemma DistinctTail<V>(s: seq<Item<int, V>>)
    requires |s| > 0 && DistinctKeys(s)
    ensures DistinctKeys(s[1..])
    ensures !Has(s[1..], s[0].key)
  {
    forall i, j | 0 <= i < j < |s[1..]|
      ensures s[1..][i].key != s[1..][j].key
    {
      assert s[1..][i] == s[i + 1] && s[1..][j] == s[j + 1];
    }
    forall i | 0 <= i < |s[1..]|
      ensures s[1..][i].key != s[0].key
    {
      assert s[1..][i] == s[i + 1];
    }
    HasIff(s[1..], s[0].key);
  }

  /** In a dictionary of buckets, the coefficient of y^m·T^n is read from the
      bucket of degree n alone. */
  lemma {:induction false} FlatDistinct(s: Buckets, n: int, m: Sparse)
    requires DistinctKeys(s)
    ensures Coeff(Flat(s), Graded(n, m)) == if Has(s, n) then Coeff(s[Find(s, n)].val.terms, m) else 0
  {
    if |s| > 0 {
      DistinctTail(s);
      FlatDistinct(s[1..], n, m);
      CoeffAppend(Lift(s[0].key, s[0].val.terms), Flat(s[1..]), Graded(n, m));
      CoeffLift(s[0].key, s[0].val.terms, Graded(n, m));
    }
  }

  /** Replacing one bucket changes the flattened coefficients by the difference. */
  lemma {:induction false} FlatUpdate(s: Buckets, i: nat, x: Bucket, k: Graded)
    requires i < |s|
    ensures Coeff(Flat(s[i := x]), k) + Coeff(Lift(s[i].key, s[i].val.terms), k)
         == Coeff(Flat(s), k) + Coeff(Lift(x.key, x.val.terms), k)
  {
    var t := s[i := x];
    CoeffAppend(Lift(t[0].key, t[0].val.terms), Flat(t[1..]), k);
    CoeffAppend(Lift(s[0].key, s[0].val.terms), Flat(s[1..]), k);
    if i > 0 {
      assert t[1..] == s[1..][i - 1 := x];
      FlatUpdate(s[1..], i - 1, x, k);
    } else {
      assert t[1..] == s[1..];
    }
  }

  // ------------------------------------------------------------ accumulating into a degree dictionary

  lemma SumDistinct(p: PolynomialData, q: PolynomialData)
    requires DistinctKeys(p.terms) && DistinctKeys(q.terms)
    ensures DistinctKeys(SumOf(p, q).terms)
  {
    if |p.terms| < |q.terms| {
      AccAllFacts(q.terms, p.terms);
      NonZeroFacts(AccAll(q.terms, p.terms));
    } else {
      AccAllFacts(p.terms, q.terms);
      NonZeroFacts(AccAll(p.terms, q.terms));
    }
  }

  /** `term_dict[n] += c` when `n` is present, `term_dict[n] = c` otherwise. */
  function AddInto(D: Buckets, n: int, c: PolynomialData): Buckets {
    if Has(D, n) then Put(D, n, SumOf(D[Find(D, n)].val, c)) else Put(D, n, c)
  }

  lemma AddIntoCoeffs(D: Buckets, n: int, c: PolynomialData)
    requires DistinctKeys(D) && BucketsOk(D) && DistinctKeys(c.terms)
    ensures forall k :: Coeff(Flat(AddInto(D, n, c)), k) == Coeff(Flat(D), k) + Coeff(Lift(n, c.terms), k)
  {
    var r := AddInto(D, n, c);
    if Has(D, n) {
      var f := Find(D, n);
      var v := SumOf(D[f].val, c);
      SumFacts(D[f].val, c);
      assert r == D[f := Item(n, v)];
      forall k
        ensures Coeff(Flat(r), k) == Coeff(Flat(D), k) + Coeff(Lift(n, c.terms), k)
      {
        FlatUpdate(D, f, Item(n, v), k);
        CoeffLift(n, D[f].val.terms, k);
        CoeffLift(n, v.terms, k);
        CoeffLift(n, c.terms, k);
      }
    } else {
      assert r == D + [Item(n, c)];
      FlatAppend(D, [Item(n, c)]);
      FlatSingle(Item(n, c));
      forall k
        ensures Coeff(Flat(r), k) == Coeff(Flat(D), k) + Coeff(Lift(n, c.terms), k)
      {
        CoeffAppend(Flat(D), Lift(n, c.terms), k);
      }
    }
  }

  /** One accumulation keeps a dictionary of dictionaries, adds `n` to the
      degrees, and adds `c·T^n` to the series. */
  lemma AddIntoFacts(D: Buckets, n: int, c: PolynomialData)
    requires DistinctKeys(D) && BucketsOk(D) && DistinctKeys(c.terms)
    ensures DistinctKeys(AddInto(D, n, c)) && BucketsOk(AddInto(D, n, c))
    ensures forall j :: Has(AddInto(D, n, c), j) <==> j == n || Has(D, j)
    ensures forall k :: Coeff(Flat(AddInto(D, n, c)), k) == Coeff(Flat(D), k) + Coeff(Lift(n, c.terms), k)
    ensures BucketsValid(D) && Valid(c) ==> BucketsValid(AddInto(D, n, c))
  {
    var r := AddInto(D, n, c);
    if Has(D, n) {
      var f := Find(D, n);
      var v := SumOf(D[f].val, c);
      SumDistinct(D[f].val, c);
      SumFacts(D[f].val, c);
      PutFacts(D, n, v);
      assert r == D[f := Item(n, v)];
    } else {
      PutFacts(D, n, c);
      assert r == D + [Item(n, c)];
    }
    AddIntoCoeffs(D, n, c);
  }

  /** The contributions `cs` accumulated into `D`, in order. */
  function Gather(D: Buckets, cs: Buckets): Buckets
    decreases |cs|
  {
    if |cs| == 0 then D else Gather(AddInto(D, cs[0].key, cs[0].val), cs[1..])
  }

  lemma {:induction false} GatherFacts(D: Buckets, cs: Buckets)
    requires DistinctKeys(D) && BucketsOk(D) && BucketsOk(cs)
    ensures DistinctKeys(Gather(D, cs)) && BucketsOk(Gather(D, cs))
    ensures forall j :: Has(Gather(D, cs), j) <==> Has(D, j) || Has(cs, j)
    ensures SameCoeffs(Flat(Gather(D, cs)), Flat(D) + Flat(cs))
    ensures BucketsValid(D) && BucketsValid(cs) ==> BucketsValid(Gather(D, cs))
    decreases |cs|
  {
    if |cs| > 0 {
      var D' := AddInto(D, cs[0].key, cs[0].val);
      AddIntoFacts(D, cs[0].key, cs[0].val);
      GatherFacts(D', cs[1..]);
      forall k
        ensures Coeff(Flat(Gather(D, cs)), k) == Coeff(Flat(D) + Flat(cs), k)
      {
        CoeffAppend(Flat(D'), Flat(cs[1..]), k);
        CoeffAppend(Flat(D), Flat(cs), k);
        CoeffAppend(Lift(cs[0].key, cs[0].val.terms), Flat(cs[1..]), k);
      }
    } else {
      forall k
        ensures Coeff(Flat(D), k) == Coeff(Flat(D) + Flat(cs), k)
      {
        CoeffAppend(Flat(D), Flat(cs), k);
      }
    }
  }

  // ------------------------------------------------------------ reading the dictionary back in order

  /** The value of a missing degree: no terms. */
  const NoBucket := PolynomialData(0, [])

  /** `for deg in sorted_degrees: … newterm_list.append((deg, term_dict[deg]))`,
      skipping zero buckets when `drop` is set. */
  ghost function Emit(D: Buckets, ks: seq<int>, drop: bool): Buckets {
    if |ks| == 0 then []
    else
      var rest := Emit(D, ks[..|ks| - 1], drop);
      var v := Get(D, ks[|ks| - 1], NoBucket);
      if drop && ZeroPoly(v) then rest else rest + [Item(ks[|ks| - 1], v)]
  }

  lemma {:induction false} EmitItems(D: Buckets, ks: seq<int>, drop: bool)
    ensures forall i :: 0 <= i < |Emit(D, ks, drop)| ==>
      Emit(D, ks, drop)[i].key in ks && Emit(D, ks, drop)[i].val == Get(D, Emit(D, ks, drop)[i].key, NoBucket)
    ensures drop ==> NoZeroBuckets(Emit(D, ks, drop))
  {
    if |ks| > 0 {
      var init := ks[..|ks| - 1];
      EmitItems(D, init, drop);
      var rest := Emit(D, init, drop);
      var e := Emit(D, ks, drop);
      assert forall i :: 0 <= i < |init| ==> init[i] in ks;
      assert forall i :: 0 <= i < |rest| ==> e[i] == rest[i];
    }
  }

  lemma {:induction false} EmitAscending(D: Buckets, ks: seq<int>, drop: bool)
    requires StrictlyAscending(ks)
    ensures Ascending(Emit(D, ks, drop))
  {
    if |ks| > 0 {
      var init := ks[..|ks| - 1];
      var last := ks[|ks| - 1];
      EmitAscending(D, init, drop);
      EmitItems(D, init, drop);
      var rest := Emit(D, init, drop);
      forall i | 0 <= i < |rest|
        ensures rest[i].key < last
      {
        var l :| 0 <= l < |init| && init[l] == rest[i].key;
      }
    }
  }

  lemma {:induction false} EmitHas(D: Buckets, ks: seq<int>, drop: bool)
    ensures forall k :: k in ks && !(drop && ZeroPoly(Get(D, k, NoBucket))) ==> Has(Emit(D, ks, drop), k)
  {
    if |ks| > 0 {
      var init := ks[..|ks| - 1];
      var last := ks[|ks| - 1];
      EmitHas(D, init, drop);
      var rest := Emit(D, init, drop);
      var e := Emit(D, ks, drop);
      assert forall i :: 0 <= i < |rest| ==> e[i] == rest[i];
      forall k | k in ks && !(drop && ZeroPoly(Get(D, k, NoBucket)))
        ensures Has(e, k)
      {
        if k in init {
          HasIff(rest, k);
          HasIff(e, k);
        } else {
          assert ks == init + [last];
          HasIff(e, k);
          assert e[|e| - 1].key == k;
        }
      }
    }
  }

  /** Sort the degrees of `D` and read its buckets back in ascending order. */
  ghost function Finish(D: Buckets, drop: bool): Buckets {
    Emit(D, Sort(Keys(D)), drop)
  }

  lemma KeysDistinct(D: Buckets)
    requires DistinctKeys(D)
    ensures Distinct(Keys(D))
    ensures forall k :: k in Keys(D) <==> Has(D, k)
  {
    forall k
      ensures k in Keys(D) <==> Has(D, k)
    {
      HasIff(D, k);
    }
  }

  /** The sorted degrees of a dictionary: each degree once, ascending. */
  lemma SortedKeys(D: Buckets)
    requires DistinctKeys(D)
    ensures StrictlyAscending(Sort(Keys(D)))
    ensures forall k :: k in Sort(Keys(D)) <==> Has(D, k)
  {
    KeysDistinct(D);
    forall k
      ensures k in Sort(Keys(D)) <==> k in Keys(D)
    {
      assert k in Sort(Keys(D)) <==> k in multiset(Sort(Keys(D)));
      assert k in Keys(D) <==> k in multiset(Keys(D));
    }
  }

  /** The buckets read back are those of `D` (the zero ones dropped when `drop`),
      in strictly ascending order, and they stand for the same series. */
  lemma FinishFacts(D: Buckets, drop: bool)
    requires DistinctKeys(D)
    ensures Ascending(Finish(D, drop)) && DistinctKeys(Finish(D, drop))
    ensures drop ==> NoZeroBuckets(Finish(D, drop))
    ensures forall i :: 0 <= i < |Finish(D, drop)| ==>
      Has(D, Finish(D, drop)[i].key) && Finish(D, drop)[i].val == D[Find(D, Finish(D, drop)[i].key)].val
    ensures forall k :: Has(D, k) && !(drop && ZeroPoly(D[Find(D, k)].val)) ==> Has(Finish(D, drop), k)
    ensures BucketsOk(D) ==> BucketsOk(Finish(D, drop))
    ensures BucketsValid(D) ==> BucketsValid(Finish(D, drop))
  {
    var ks := Sort(Keys(D));
    SortedKeys(D);
    EmitItems(D, ks, drop);
    EmitAscending(D, ks, drop);
    EmitHas(D, ks, drop);
    var e := Finish(D, drop);
    if BucketsOk(D) {
      forall i | 0 <= i < |e|
        ensures DistinctKeys(e[i].val.terms)
      {
        assert e[i].val == D[Find(D, e[i].key)].val;
      }
    }
    if BucketsValid(D) {
      forall i | 0 <= i < |e|
        ensures Valid(e[i].val)
      {
        assert e[i].val == D[Find(D, e[i].key)].val;
      }
    }
  }

  /** Reading back changes no coefficient of the series. */
  lemma FinishCoeffs(D: Buckets, drop: bool)
    requires DistinctKeys(D)
    ensures SameCoeffs(Flat(Finish(D, drop)), Flat(D))
  {
    var e := Finish(D, drop);
    FinishFacts(D, drop);
    forall k
      ensures Coeff(Flat(e), k) == Coeff(Flat(D), k)
    {
      FlatDistinct(e, k.deg, k.mono);
      FlatDistinct(D, k.deg, k.mono);
      if Has(e, k.deg) {
        assert e[Find(e, k.deg)].key == k.deg;
      }
    }
  }
}
