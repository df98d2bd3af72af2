/** `PolynomialData`: a dictionary from sparse monomials to integer
    coefficients, together with the identity of its base ring.

    The constructor drops every zero coefficient.  Each operation builds a new
    dictionary with loops, as the code does; every such method is proved equal
    to a specification function, and the laws (coefficients of sums and
    products, evaluation, powers) are proved about those functions. */
module Polynomials {
  import opened Wrappers
  import opened Dicts
  import opened Sums
  import opened Monomials

  /** Base rings are compared by identity only. */
  type RingId = nat

  type Terms = seq<Item<Sparse, int>>

  datatype PolynomialData = PolynomialData(baseRing: RingId, terms: Terms)

  ghost predicate KeysWellFormed(d: Terms) {
    forall i :: 0 <= i < |d| ==> WellFormed(d[i].key)
  }

  ghost predicate NoZeroTerms(d: Terms) {
    forall i :: 0 <= i < |d| ==> d[i].val != 0
  }

  /** What every `PolynomialData` built by the code satisfies: a dictionary
      (distinct keys) of well-formed monomials with nonzero coefficients. */
  ghost predicate Valid(p: PolynomialData) {
    DistinctKeys(p.terms) && NoZeroTerms(p.terms) && KeysWellFormed(p.terms)
  }

  // ------------------------------------------------------------ construction

  /** `PolynomialData(base_ring, d)`: the entries of `d` with a nonzero coefficient. */
  function Make(ring: RingId, d: Terms): (p: PolynomialData)
    ensures p.baseRing == ring
  {
    PolynomialData(ring, NonZero(d))
  }

  lemma PutFresh(d: Terms, k: Sparse, v: int)
    requires forall j :: 0 <= j < |d| ==> d[j].key != k
    ensures Put(d, k, v) == d + [Item(k, v)]
  {
    HasIff(d, k);
  }

  /** The constructor's loop: copy every entry whose coefficient is nonzero. */
  method New(ring: RingId, d: Terms) returns (p: PolynomialData)
    requires DistinctKeys(d)
    ensures p == Make(ring, d)
  {
    var out: Terms := [];
    assert d[0..] == d;
    for i := 0 to |d|
      invariant out + NonZero(d[i..]) == NonZero(d)
      invariant forall j :: 0 <= j < |out| ==> out[j] in d[..i]
    {
      assert d[i..][1..] == d[i + 1..];
      if d[i].val != 0 {
        forall j | 0 <= j < |out|
          ensures out[j].key != d[i].key
        {
          var l :| 0 <= l < i && d[l] == out[j];
        }
        PutFresh(out, d[i].key, d[i].val);
        ItemsAssoc(out, [d[i]], NonZero(d[i + 1..]));
        out := Put(out, d[i].key, d[i].val);
      }
    }
    assert d[|d|..] == [];
    p := PolynomialData(ring, out);
  }

  /** The constructor keeps every coefficient, and yields a valid polynomial
      from a dictionary of well-formed monomials. */
  lemma MakeFacts(ring: RingId, d: Terms)
    ensures forall it :: it in Make(ring, d).terms <==> it in d && it.val != 0
    ensures SameCoeffs(Make(ring, d).terms, d)
    ensures DistinctKeys(d) && KeysWellFormed(d) ==> Valid(Make(ring, d))
  {
    NonZeroFacts(d);
    var r := Make(ring, d).terms;
    assert forall i :: 0 <= i < |r| ==> r[i] in r;
  }

  /** `is_zero`: true when the dictionary is empty or every coefficient is zero. */
  method IsZero(p: PolynomialData) returns (z: bool)
    requires DistinctKeys(p.terms)
    ensures z <==> forall k :: Coeff(p.terms, k) == 0
  {
    if |p.terms| == 0 {
      return true;
    }
    for i := 0 to |p.terms|
      invariant forall j :: 0 <= j < i ==> p.terms[j].val == 0
    {
      if p.terms[i].val != 0 {
        CoeffOfDict(p.terms, p.terms[i].key);
        FindDistinct(p.terms, i);
        return false;
      }
    }
    forall k
      ensures Coeff(p.terms, k) == 0
    {
      CoeffOfDict(p.terms, k);
    }
    return true;
  }

  /** A valid polynomial is zero exactly when it has no terms. */
  lemma ZeroIffEmpty(p: PolynomialData)
    requires DistinctKeys(p.terms) && NoZeroTerms(p.terms)
    ensures (forall k :: Coeff(p.terms, k) == 0) <==> p.terms == []
  {
    if p.terms != [] {
      CoeffOfDict(p.terms, p.terms[0].key);
      FindDistinct(p.terms, 0);
    }
  }

  /** `p(m)`: the coefficient of the monomial `m`, or zero when it is absent. */
  function Lookup(p: PolynomialData, m: Sparse): (c: int)
    requires DistinctKeys(p.terms)
    ensures c == Coeff(p.terms, m)
    ensures c != 0 ==> Item(m, c) in p.terms
  {
    CoeffOfDict(p.terms, m);
    Get(p.terms, m, 0)
  }

  /** `==`: the same base ring and the same dictionary, in any order. */
  function Equals(p: PolynomialData, q: PolynomialData): bool {
    p.baseRing == q.baseRing && AsMap(p.terms) == AsMap(q.terms)
  }

  lemma MapOfValid(p: PolynomialData, k: Sparse)
    requires DistinctKeys(p.terms) && NoZeroTerms(p.terms)
    ensures k in AsMap(p.terms) <==> Coeff(p.terms, k) != 0
    ensures k in AsMap(p.terms) ==> AsMap(p.terms)[k] == Coeff(p.terms, k)
  {
    AsMapFacts(p.terms, k);
    CoeffOfDict(p.terms, k);
  }

  /** For valid polynomials `==` means: same base ring and the same coefficient at every monomial. */
  lemma EqualsIff(p: PolynomialData, q: PolynomialData)
    requires Valid(p) && Valid(q)
    ensures Equals(p, q) <==> p.baseRing == q.baseRing && SameCoeffs(p.terms, q.terms)
  {
    if Equals(p, q) {
      forall k
        ensures Coeff(p.terms, k) == Coeff(q.terms, k)
      {
        MapOfValid(p, k);
        MapOfValid(q, k);
      }
    }
    if p.baseRing == q.baseRing && SameCoeffs(p.terms, q.terms) {
      forall k | true
        ensures k in AsMap(p.terms) <==> k in AsMap(q.terms)
        ensures k in AsMap(p.terms) ==> AsMap(p.terms)[k] == AsMap(q.terms)[k]
      {
        MapOfValid(p, k);
        MapOfValid(q, k);
      }
    }
  }

  // ------------------------------------------------------------ addition

  /** `p + q`: the longer dictionary is copied and the shorter one is added
      into it entry by entry; the result carries `q`'s base ring. */
  function SumOf(p: PolynomialData, q: PolynomialData): PolynomialData {
    if |p.terms| < |q.terms| then Make(q.baseRing, AccAll(q.terms, p.terms))
    else Make(q.baseRing, AccAll(p.terms, q.terms))
  }

  method Add(p: PolynomialData, q: PolynomialData) returns (r: PolynomialData)
    requires DistinctKeys(p.terms) && DistinctKeys(q.terms)
    ensures r == SumOf(p, q)
  {
    var newDict, otherDict;
    if |p.terms| < |q.terms| {
      newDict, otherDict := q.terms, p.terms;
    } else {
      newDict, otherDict := p.terms, q.terms;
    }
    ghost var start := newDict;
    assert otherDict[0..] == otherDict;
    for i := 0 to |otherDict|
      invariant DistinctKeys(newDict)
      invariant AccAll(newDict, otherDict[i..]) == AccAll(start, otherDict)
    {
      assert otherDict[i..][1..] == otherDict[i + 1..];
      AccFacts(newDict, otherDict[i].key, otherDict[i].val);
      newDict := Acc(newDict, otherDict[i].key, otherDict[i].val);
    }
    assert otherDict[|otherDict|..] == [];
    r := New(q.baseRing, newDict);
  }

  /** Addition adds coefficients, absent counting as zero; the result carries
      `q`'s base ring and is valid when both summands are. */
  lemma SumFacts(p: PolynomialData, q: PolynomialData)
    requires DistinctKeys(p.terms) && DistinctKeys(q.terms)
    ensures SumOf(p, q).baseRing == q.baseRing
    ensures forall k :: Coeff(SumOf(p, q).terms, k) == Coeff(p.terms, k) + Coeff(q.terms, k)
    ensures Valid(p) && Valid(q) ==> Valid(SumOf(p, q))
  {
    var d := if |p.terms| < |q.terms| then AccAll(q.terms, p.terms) else AccAll(p.terms, q.terms);
    if |p.terms| < |q.terms| {
      AccAllFacts(q.terms, p.terms);
    } else {
      AccAllFacts(p.terms, q.terms);
    }
    MakeFacts(q.baseRing, d);
    if Valid(p) && Valid(q) {
      forall i | 0 <= i < |d|
        ensures WellFormed(d[i].key)
      {
        assert Has(d, d[i].key) by { HasIff(d, d[i].key); }
        var j: int;
        if Has(p.terms, d[i].key) {
          HasIff(p.terms, d[i].key);
        } else {
          HasIff(q.terms, d[i].key);
        }
      }
    }
  }

  // ------------------------------------------------------------ negation, difference, scaling

  function NegTerms(d: Terms): (r: Terms)
    ensures |r| == |d|
    ensures forall i :: 0 <= i < |d| ==> r[i] == Item(d[i].key, -d[i].val)
  {
    if |d| == 0 then [] else [Item(d[0].key, -d[0].val)] + NegTerms(d[1..])
  }

  /** `-p`: every coefficient negated in a copy of the dictionary, same base ring. */
  function Negation(p: PolynomialData): PolynomialData {
    Make(p.baseRing, NegTerms(p.terms))
  }

  method Neg(p: PolynomialData) returns (r: PolynomialData)
    requires DistinctKeys(p.terms)
    ensures r == Negation(p)
  {
    var newDict := p.terms;
    for i := 0 to |p.terms|
      invariant |newDict| == |p.terms|
      invariant forall j :: 0 <= j < |p.terms| ==> newDict[j].key == p.terms[j].key
      invariant forall j :: 0 <= j < i ==> newDict[j].val == -p.terms[j].val
      invariant forall j :: i <= j < |p.terms| ==> newDict[j].val == p.terms[j].val
    {
      var m, c := newDict[i].key, newDict[i].val;
      assert DistinctKeys(newDict);
      FindDistinct(newDict, i);
      newDict := Put(newDict, m, -c);
    }
    assert newDict == NegTerms(p.terms);
    r := New(p.baseRing, newDict);
  }

  lemma {:induction false} CoeffNeg(d: Terms, k: Sparse)
    ensures Coeff(NegTerms(d), k) == -Coeff(d, k)
  {
    if |d| > 0 {
      CoeffNeg(d[1..], k);
      assert NegTerms(d)[1..] == NegTerms(d[1..]);
    }
  }

  /** Negation negates every coefficient and keeps the base ring. */
  lemma NegationFacts(p: PolynomialData)
    ensures Negation(p).baseRing == p.baseRing
    ensures forall k :: Coeff(Negation(p).terms, k) == -Coeff(p.terms, k)
    ensures Valid(p) ==> Valid(Negation(p))
  {
    MakeFacts(p.baseRing, NegTerms(p.terms));
    forall k
      ensures Coeff(Negation(p).terms, k) == -Coeff(p.terms, k)
    {
      CoeffNeg(p.terms, k);
    }
  }

  /** `p - q` is `p + (-q)`. */
  function Difference(p: PolynomialData, q: PolynomialData): PolynomialData {
    SumOf(p, Negation(q))
  }

  method Sub(p: PolynomialData, q: PolynomialData) returns (r: PolynomialData)
    requires DistinctKeys(p.terms) && DistinctKeys(q.terms)
    ensures r == Difference(p, q)
  {
    var nq := Neg(q);
    NonZeroFacts(NegTerms(q.terms));
    r := Add(p, nq);
  }

  /** Subtraction subtracts coefficients and carries `q`'s base ring. */
  lemma DifferenceFacts(p: PolynomialData, q: PolynomialData)
    requires DistinctKeys(p.terms) && DistinctKeys(q.terms)
    ensures Difference(p, q).baseRing == q.baseRing
    ensures forall k :: Coeff(Difference(p, q).terms, k) == Coeff(p.terms, k) - Coeff(q.terms, k)
    ensures Valid(p) && Valid(q) ==> Valid(Difference(p, q))
  {
    NegationFacts(q);
    NonZeroFacts(NegTerms(q.terms));
    SumFacts(p, Negation(q));
  }

  /** `p - p` has no terms. */
  lemma SubSelfZero(p: PolynomialData)
    requires Valid(p)
    ensures Difference(p, p).terms == []
  {
    DifferenceFacts(p, p);
    ZeroIffEmpty(Difference(p, p));
  }

  function ScaleTerms(d: Terms, s: int): (r: Terms)
    ensures |r| == |d|
    ensures forall i :: 0 <= i < |d| ==> r[i] == Item(d[i].key, d[i].val * s)
  {
    if |d| == 0 then [] else [Item(d[0].key, d[0].val * s)] + ScaleTerms(d[1..], s)
  }

  /** `s * p` for a scalar `s` (`__rmul__`): every coefficient times `s`. */
  function Scaled(p: PolynomialData, s: int): PolynomialData {
    Make(p.baseRing, ScaleTerms(p.terms, s))
  }

  method Scale(p: PolynomialData, s: int) returns (r: PolynomialData)
    requires DistinctKeys(p.terms)
    ensures r == Scaled(p, s)
  {
    var newDict: Terms := [];
    for i := 0 to |p.terms|
      invariant |newDict| == i
      invariant forall j :: 0 <= j < i ==> newDict[j] == Item(p.terms[j].key, p.terms[j].val * s)
    {
      PutFresh(newDict, p.terms[i].key, p.terms[i].val * s);
      newDict := Put(newDict, p.terms[i].key, p.terms[i].val * s);
    }
    assert newDict == ScaleTerms(p.terms, s);
    r := New(p.baseRing, newDict);
  }

  lemma {:induction false} CoeffScale(d: Terms, s: int, k: Sparse)
    ensures Coeff(ScaleTerms(d, s), k) == s * Coeff(d, k)
  {
    if |d| > 0 {
      CoeffScale(d[1..], s, k);
      assert ScaleTerms(d, s)[1..] == ScaleTerms(d[1..], s);
    }
  }

  /** Scaling multiplies every coefficient by `s` and keeps the base ring. */
  lemma ScaledFacts(p: PolynomialData, s: int)
    ensures Scaled(p, s).baseRing == p.baseRing
    ensures forall k :: Coeff(Scaled(p, s).terms, k) == s * Coeff(p.terms, k)
    ensures Valid(p) ==> Valid(Scaled(p, s))
  {
    MakeFacts(p.baseRing, ScaleTerms(p.terms, s));
    forall k
      ensures Coeff(Scaled(p, s).terms, k) == s * Coeff(p.terms, k)
    {
      CoeffScale(p.terms, s, k);
    }
  }

  // ------------------------------------------------------------ product

  function KeepAll(x: Sparse, y: Sparse): bool {
    true
  }

  /** Every pairwise product `(m·n, c·d)`, row by row. */
  function ProductTerms(a: Terms, b: Terms): Terms {
    Conv(a, b, Merge, KeepAll)
  }

  /** `p * q` over one base ring: the pairwise products summed into a new dictionary. */
  function ProductOf(p: PolynomialData, q: PolynomialData): PolynomialData {
    Make(q.baseRing, AccAll([], ProductTerms(p.terms, q.terms)))
  }

  /** `p * q`, which returns `NotImplemented` when the base rings differ. */
  function MulResult(p: PolynomialData, q: PolynomialData): Result<PolynomialData> {
    if p.baseRing != q.baseRing then Failure(NotImplemented) else Success(ProductOf(p, q))
  }

  lemma AccAllCons(d: Terms, it: Item<Sparse, int>, z: Terms)
    ensures AccAll(d, [it] + z) == AccAll(Acc(d, it.key, it.val), z)
  {
    assert ([it] + z)[1..] == z;
  }

  /** One pass of the inner loop: accumulate the product of `x` and `b[j]`. */
  lemma InnerStep(nd: Terms, x: Item<Sparse, int>, b: Terms, j: nat, rest: Terms, target: Terms)
    requires j < |b| && AccAll(nd, Row(x, b[j..], Merge, KeepAll) + rest) == target
    ensures AccAll(Acc(nd, Merge(x.key, b[j].key), x.val * b[j].val), Row(x, b[j + 1..], Merge, KeepAll) + rest) == target
  {
    assert b[j..][1..] == b[j + 1..];
    var it := Item(Merge(x.key, b[j].key), x.val * b[j].val);
    ItemsAssoc([it], Row(x, b[j + 1..], Merge, KeepAll), rest);
    AccAllCons(nd, it, Row(x, b[j + 1..], Merge, KeepAll) + rest);
  }

  /** Starting and finishing row `i` of the outer loop. */
  lemma OuterStep(a: Terms, b: Terms, i: nat)
    requires i < |a|
    ensures ProductTerms(a[i..], b) == Row(a[i], b[0..], Merge, KeepAll) + ProductTerms(a[i + 1..], b)
    ensures Row(a[i], b[|b|..], Merge, KeepAll) + ProductTerms(a[i + 1..], b) == ProductTerms(a[i + 1..], b)
  {
    assert a[i..][1..] == a[i + 1..];
    assert b[0..] == b && b[|b|..] == [];
  }

  method Mul(p: PolynomialData, q: PolynomialData) returns (r: Result<PolynomialData>)
    ensures r == MulResult(p, q)
  {
    if p.baseRing != q.baseRing {
      return Failure(NotImplemented);
    }
    ghost var target := AccAll([], ProductTerms(p.terms, q.terms));
    var newDict: Terms := [];
    assert p.terms[0..] == p.terms;
    for i := 0 to |p.terms|
      invariant DistinctKeys(newDict)
      invariant AccAll(newDict, ProductTerms(p.terms[i..], q.terms)) == target
    {
      OuterStep(p.terms, q.terms, i);
      for j := 0 to |q.terms|
        invariant DistinctKeys(newDict)
        invariant AccAll(newDict, Row(p.terms[i], q.terms[j..], Merge, KeepAll) + ProductTerms(p.terms[i + 1..], q.terms)) == target
      {
        var k := SparseMul(p.terms[i].key, q.terms[j].key);
        var e := p.terms[i].val * q.terms[j].val;
        InnerStep(newDict, p.terms[i], q.terms, j, ProductTerms(p.terms[i + 1..], q.terms), target);
        AccFacts(newDict, k, e);
        newDict := Acc(newDict, k, e);
      }
    }
    assert p.terms[|p.terms|..] == [];
    var res := New(q.baseRing, newDict);
    return Success(res);
  }

  // ------------------------------------------------------------ evaluation

  /** Python's `args[i]`, counting negative indices from the end; 0 out of range. */
  function ArgAt(args: seq<int>, i: int): int {
    if 0 <= i < |args| then args[i] else if -|args| <= i < 0 then args[|args| + i] else 0
  }

  /** Π args[i]^e over the pairs of `t`; exponents are taken to be nonnegative. */
  function MonoValue(t: Sparse, args: seq<int>): int {
    if |t| == 0 then 1
    else Pow(ArgAt(args, t[0].index), if t[0].exp < 0 then 0 else t[0].exp) * MonoValue(t[1..], args)
  }

  /** The value of each monomial at `args`, as a weight for `Total`. */
  function MonoOf(args: seq<int>): Sparse -> int {
    t => MonoValue(t, args)
  }

  /** Σ c·Π args[i]^e over the terms of `d`. */
  function EvalAt(d: Terms, args: seq<int>): int {
    Total(d, MonoOf(args))
  }

  ghost predicate NonNegExps(d: Terms) {
    forall i, j :: 0 <= i < |d| && 0 <= j < |d[i].key| ==> d[i].key[j].exp >= 0
  }

  /** Every variable index can be used to index an argument list of length `n`. */
  ghost predicate AllInRange(d: Terms, n: int) {
    forall i, j :: 0 <= i < |d| && 0 <= j < |d[i].key| ==> -n <= d[i].key[j].index < n
  }

  lemma MulAssoc(x: int, y: int, z: int)
    ensures x * (y * z) == (x * y) * z
  {
  }

  /** `evaluate(args)`: the nested loops of the code; an index that misses the
      argument list raises `IndexError`. */
  method Evaluate(p: PolynomialData, args: seq<int>) returns (r: Result<int>)
    requires NonNegExps(p.terms)
    ensures r.Failure? <==> !AllInRange(p.terms, |args|)
    ensures r.Failure? ==> r.error == IndexError
    ensures r.Success? ==> r.value == EvalAt(p.terms, args)
  {
    var x := 0;
    assert p.terms[0..] == p.terms;
    for i := 0 to |p.terms|
      invariant x + EvalAt(p.terms[i..], args) == EvalAt(p.terms, args)
      invariant forall l, j :: 0 <= l < i && 0 <= j < |p.terms[l].key| ==> -|args| <= p.terms[l].key[j].index < |args|
    {
      var key, value := p.terms[i].key, p.terms[i].val;
      var monomialPart := 1;
      assert key[0..] == key;
      for j := 0 to |key|
        invariant monomialPart * MonoValue(key[j..], args) == MonoValue(key, args)
        invariant forall l :: 0 <= l < j ==> -|args| <= key[l].index < |args|
      {
        var idx := key[j].index;
        var base: int;
        if 0 <= idx < |args| {
          base := args[idx];
        } else if -|args| <= idx < 0 {
          base := args[|args| + idx];
        } else {
          return Failure(IndexError);
        }
        assert key[j..][1..] == key[j + 1..];
        MulAssoc(monomialPart, Pow(base, key[j].exp), MonoValue(key[j + 1..], args));
        monomialPart := monomialPart * Pow(base, key[j].exp);
      }
      assert key[|key|..] == [];
      assert p.terms[i..][1..] == p.terms[i + 1..];
      x := x + value * monomialPart;
    }
    assert p.terms[|p.terms|..] == [];
    return Success(x);
  }

  ghost predicate NonNegPairs(t: Sparse) {
    forall j :: 0 <= j < |t| ==> t[j].exp >= 0
  }

  lemma {:induction false} PowSum(b: int, e1: nat, e2: nat)
    ensures Pow(b, e1 + e2) == Pow(b, e1) * Pow(b, e2)
  {
    if e1 > 0 {
      PowSum(b, e1 - 1, e2);
      MulAssoc(b, Pow(b, e1 - 1), Pow(b, e2));
    }
  }

  lemma Swap(x: int, y: int, z: int)
    ensures x * (y * z) == y * (x * z)
  {
  }

  lemma Regroup(x: int, y: int, u: int, v: int)
    ensures (x * y) * (u * v) == (x * u) * (y * v)
  {
  }

  lemma MonoCons(x: Pair, t: Sparse, args: seq<int>)
    requires x.exp >= 0
    ensures MonoValue([x] + t, args) == Pow(ArgAt(args, x.index), x.exp) * MonoValue(t, args)
  {
    assert ([x] + t)[1..] == t;
  }

  /** Evaluating a product of monomials multiplies their values. */
  lemma {:induction false} MonoValueMerge(a: Sparse, b: Sparse, args: seq<int>)
    requires NonNegPairs(a) && NonNegPairs(b)
    ensures MonoValue(Merge(a, b), args) == MonoValue(a, args) * MonoValue(b, args)
    decreases |a| + |b|
  {
    if |a| > 0 && |b| > 0 {
      assert a == [a[0]] + a[1..] && b == [b[0]] + b[1..];
      var pa, pb := Pow(ArgAt(args, a[0].index), a[0].exp), Pow(ArgAt(args, b[0].index), b[0].exp);
      var va, vb := MonoValue(a[1..], args), MonoValue(b[1..], args);
      MonoCons(a[0], a[1..], args);
      MonoCons(b[0], b[1..], args);
      if a[0].index < b[0].index {
        var m := Merge(a[1..], b);
        MonoValueMerge(a[1..], b, args);
        MonoCons(a[0], m, args);
        MulAssoc(pa, va, MonoValue(b, args));
      } else if a[0].index == b[0].index {
        var m := Merge(a[1..], b[1..]);
        MonoValueMerge(a[1..], b[1..], args);
        PowSum(ArgAt(args, a[0].index), a[0].exp, b[0].exp);
        Regroup(pa, pb, va, vb);
        if a[0].exp + b[0].exp != 0 {
          MonoCons(Pair(a[0].index, a[0].exp + b[0].exp), m, args);
        } else {
          assert pa == 1 && pb == 1;
          assert Merge(a, b) == m;
        }
      } else {
        var m := Merge(a, b[1..]);
        MonoValueMerge(a, b[1..], args);
        MonoCons(b[0], m, args);
        Swap(pb, MonoValue(a, args), vb);
      }
    }
  }

  /** Evaluation is additive. */
  lemma EvalSum(p: PolynomialData, q: PolynomialData, args: seq<int>)
    requires DistinctKeys(p.terms) && DistinctKeys(q.terms)
    ensures EvalAt(SumOf(p, q).terms, args) == EvalAt(p.terms, args) + EvalAt(q.terms, args)
  {
    SumFacts(p, q);
    forall k
      ensures Coeff(SumOf(p, q).terms, k) == Coeff(p.terms + q.terms, k)
    {
      CoeffAppend(p.terms, q.terms, k);
    }
    Determinacy(SumOf(p, q).terms, p.terms + q.terms, MonoOf(args));
    TotalAppend(p.terms, q.terms, MonoOf(args));
  }

  /** Multiplying one monomial `x` into every term of `q` multiplies the value by x's. */
  lemma RowEval(x: Sparse, q: Terms, args: seq<int>)
    requires NonNegPairs(x) && NonNegExps(q)
    ensures RowValue(q, Merge, KeepAll, MonoOf(args))(x) == EvalAt(q, args) * MonoOf(args)(x)
  {
    var g := MonoOf(args);
    var c := g(x);
    forall j | 0 <= j < |q|
      ensures (if KeepAll(x, q[j].key) then g(Merge(x, q[j].key)) else 0) == c * g(q[j].key)
    {
      var y := q[j].key;
      assert NonNegPairs(y);
      MonoValueMerge(x, y, args);
      assert g(Merge(x, y)) == MonoValue(x, args) * MonoValue(y, args);
    }
    RowScale(x, q, Merge, KeepAll, g, c);
    assert RowValue(q, Merge, KeepAll, g)(x) == c * EvalAt(q, args);
  }

  /** The value of a product, summed row by row over the terms of `p`. */
  lemma EvalByRows(p: PolynomialData, q: PolynomialData, args: seq<int>)
    ensures EvalAt(ProductOf(p, q).terms, args) == Total(p.terms, RowValue(q.terms, Merge, KeepAll, MonoOf(args)))
  {
    var g := MonoOf(args);
    assert Total(ProductOf(p, q).terms, g) == Total(ProductTerms(p.terms, q.terms), g) by {
      ProductFacts(p, q);
      Determinacy(ProductOf(p, q).terms, ProductTerms(p.terms, q.terms), g);
    }
    assert ProductTerms(p.terms, q.terms) == Conv(p.terms, q.terms, Merge, KeepAll);
    TotalConv(p.terms, q.terms, Merge, KeepAll, g);
  }

  lemma RowsEval(p: Terms, q: Terms, args: seq<int>)
    requires NonNegExps(p) && NonNegExps(q)
    ensures forall i :: 0 <= i < |p| ==>
      RowValue(q, Merge, KeepAll, MonoOf(args))(p[i].key) == EvalAt(q, args) * MonoOf(args)(p[i].key)
  {
    forall i | 0 <= i < |p|
      ensures RowValue(q, Merge, KeepAll, MonoOf(args))(p[i].key) == EvalAt(q, args) * MonoOf(args)(p[i].key)
    {
      assert NonNegPairs(p[i].key);
      RowEval(p[i].key, q, args);
    }
  }

  lemma RowsTotal(p: Terms, q: Terms, args: seq<int>)
    requires NonNegExps(p) && NonNegExps(q)
    ensures Total(p, RowValue(q, Merge, KeepAll, MonoOf(args))) == EvalAt(p, args) * EvalAt(q, args)
  {
    var g := MonoOf(args);
    var h := RowValue(q, Merge, KeepAll, g);
    var e := EvalAt(q, args);
    RowsEval(p, q, args);
    TotalScale(p, g, h, e);
    assert Total(p, h) == e * EvalAt(p, args);
  }

  /** Evaluation is multiplicative. */
  lemma EvalProduct(p: PolynomialData, q: PolynomialData, args: seq<int>)
    requires NonNegExps(p.terms) && NonNegExps(q.terms)
    ensures EvalAt(ProductOf(p, q).terms, args) == EvalAt(p.terms, args) * EvalAt(q.terms, args)
  {
    EvalByRows(p, q, args);
    RowsTotal(p.terms, q.terms, args);
  }

  /** `x0 + 2·x1·x2 + x3` at (1, 2, 3, 4) is 17. */
  lemma EvalExample()
    ensures EvalAt([Item([Pair(0, 1)], 1), Item([Pair(1, 1), Pair(2, 1)], 2), Item([Pair(3, 1)], 1)], [1, 2, 3, 4]) == 17
  {
  }

  // ------------------------------------------------------------ algebra of the product

  lemma {:induction false} RowKeys(x: Item<Sparse, int>, b: Terms)
    requires WellFormed(x.key) && KeysWellFormed(b)
    ensures KeysWellFormed(Row(x, b, Merge, KeepAll))
  {
    if |b| > 0 {
      RowKeys(x, b[1..]);
      MergeWellFormed(x.key, b[0].key);
    }
  }

  lemma {:induction false} ConvKeys(a: Terms, b: Terms)
    requires KeysWellFormed(a) && KeysWellFormed(b)
    ensures KeysWellFormed(ProductTerms(a, b))
  {
    if |a| > 0 {
      RowKeys(a[0], b);
      ConvKeys(a[1..], b);
    }
  }

  lemma AccAllKeys(d: Terms, l: Terms)
    requires DistinctKeys(d) && KeysWellFormed(d) && KeysWellFormed(l)
    ensures KeysWellFormed(AccAll(d, l))
  {
    var r := AccAll(d, l);
    AccAllFacts(d, l);
    forall i | 0 <= i < |r|
      ensures WellFormed(r[i].key)
    {
      HasIff(r, r[i].key);
      HasIff(d, r[i].key);
    }
  }

  /** The coefficient of `k` in `p * q` is Σ c·d over the pairs (m, c) of `p` and
      (n, d) of `q` with m·n = k; the base ring is `q`'s. */
  lemma ProductFacts(p: PolynomialData, q: PolynomialData)
    ensures ProductOf(p, q).baseRing == q.baseRing
    ensures SameCoeffs(ProductOf(p, q).terms, ProductTerms(p.terms, q.terms))
    ensures forall k :: Coeff(ProductOf(p, q).terms, k) == Total(p.terms, RowValue(q.terms, Merge, KeepAll, Delta(k)))
  {
    var l := ProductTerms(p.terms, q.terms);
    AccAllFacts([], l);
    MakeFacts(q.baseRing, AccAll([], l));
    forall k
      ensures Coeff(ProductOf(p, q).terms, k) == Total(p.terms, RowValue(q.terms, Merge, KeepAll, Delta(k)))
    {
      CoeffConv(p.terms, q.terms, Merge, KeepAll, k);
    }
  }

  /** The product of valid polynomials is valid. */
  lemma ProductValid(p: PolynomialData, q: PolynomialData)
    requires Valid(p) && Valid(q)
    ensures Valid(ProductOf(p, q))
  {
    var l := ProductTerms(p.terms, q.terms);
    AccAllFacts([], l);
    ConvKeys(p.terms, q.terms);
    AccAllKeys([], l);
    MakeFacts(q.baseRing, AccAll([], l));
  }

  /** The polynomial 1 over `ring`: the empty monomial with coefficient 1. */
  function One(ring: RingId): PolynomialData {
    PolynomialData(ring, [Item([], 1)])
  }

  lemma {:induction false} RowOne(b: Terms)
    ensures Row(Item([], 1), b, Merge, KeepAll) == b
  {
    if |b| > 0 {
      RowOne(b[1..]);
    }
  }

  lemma {:induction false} ConvOne(a: Terms)
    ensures ProductTerms(a, [Item([], 1)]) == a
  {
    if |a| > 0 {
      MergeIdentity(a[0].key);
      ConvOne(a[1..]);
      assert Row(a[0], [Item([], 1)], Merge, KeepAll) == [a[0]];
      assert a == [a[0]] + a[1..];
    }
  }

  /** 1 is a two-sided identity for the product. */
  lemma OneIdentity(x: PolynomialData)
    requires Valid(x)
    ensures Equals(ProductOf(One(x.baseRing), x), x)
    ensures Equals(ProductOf(x, One(x.baseRing)), x)
  {
    var one := One(x.baseRing);
    ProductFacts(one, x);
    RowOne(x.terms);
    assert one.terms[1..] == [];
    assert ProductTerms(one.terms, x.terms) == Row(one.terms[0], x.terms, Merge, KeepAll) + ProductTerms(one.terms[1..], x.terms);
    assert ProductTerms(one.terms, x.terms) == x.terms;
    ProductValid(one, x);
    EqualsIff(ProductOf(one, x), x);
    ProductFacts(x, one);
    ConvOne(x.terms);
    ProductValid(x, one);
    EqualsIff(ProductOf(x, one), x);
  }

  lemma ProductCongruence(x: PolynomialData, x': PolynomialData, y: PolynomialData, y': PolynomialData)
    requires SameCoeffs(x.terms, x'.terms) && SameCoeffs(y.terms, y'.terms)
    ensures SameCoeffs(ProductOf(x, y).terms, ProductOf(x', y').terms)
  {
    ProductFacts(x, y);
    ProductFacts(x', y');
    ConvCongruence(x.terms, x'.terms, y.terms, y'.terms, Merge, KeepAll);
  }

  /** The product respects `==` on valid polynomials. */
  lemma ProductEquals(x: PolynomialData, x': PolynomialData, y: PolynomialData, y': PolynomialData)
    requires Valid(x) && Valid(x') && Valid(y) && Valid(y')
    requires Equals(x, x') && Equals(y, y')
    ensures Equals(ProductOf(x, y), ProductOf(x', y'))
  {
    EqualsIff(x, x');
    EqualsIff(y, y');
    ProductCongruence(x, x', y, y');
    ProductValid(x, y);
    ProductValid(x', y');
    EqualsIff(ProductOf(x, y), ProductOf(x', y'));
  }

  /** The product is associative on valid polynomials. */
  lemma ProductAssoc(x: PolynomialData, y: PolynomialData, z: PolynomialData)
    requires Valid(x) && Valid(y) && Valid(z)
    ensures SameCoeffs(ProductOf(ProductOf(x, y), z).terms, ProductOf(x, ProductOf(y, z)).terms)
  {
    var xy, yz := ProductOf(x, y), ProductOf(y, z);
    ProductFacts(x, y);
    ProductFacts(y, z);
    ProductFacts(xy, z);
    ProductFacts(x, yz);
    ConvCongruence(xy.terms, ProductTerms(x.terms, y.terms), z.terms, z.terms, Merge, KeepAll);
    ConvCongruence(x.terms, x.terms, yz.terms, ProductTerms(y.terms, z.terms), Merge, KeepAll);
    forall i, j, l | 0 <= i < |x.terms| && 0 <= j < |y.terms| && 0 <= l < |z.terms|
      ensures Associates(Merge, KeepAll, x.terms[i].key, y.terms[j].key, z.terms[l].key)
    {
      MergeAssoc(x.terms[i].key, y.terms[j].key, z.terms[l].key);
    }
    ConvAssoc(x.terms, y.terms, z.terms, Merge, KeepAll);
  }

  lemma ProductAssocEquals(x: PolynomialData, y: PolynomialData, z: PolynomialData)
    requires Valid(x) && Valid(y) && Valid(z)
    ensures Equals(ProductOf(ProductOf(x, y), z), ProductOf(x, ProductOf(y, z)))
  {
    ProductAssoc(x, y, z);
    ProductValid(x, y);
    ProductValid(y, z);
    ProductValid(ProductOf(x, y), z);
    ProductValid(x, ProductOf(y, z));
    EqualsIff(ProductOf(ProductOf(x, y), z), ProductOf(x, ProductOf(y, z)));
  }

  /** `p^n` as the n-fold product `p * (p * (… * 1))`. */
  function NFold(p: PolynomialData, n: nat): PolynomialData {
    if n == 0 then One(p.baseRing) else ProductOf(p, NFold(p, n - 1))
  }
}
