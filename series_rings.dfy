/** `PowerSeriesRing`: weight validation, the conversions of `ring(x)`, the
    re-bucketing of a flat polynomial by weighted degree (`_unflatten_data`),
    and the checks of the power series morphism constructor.

    Rings and series are Python objects compared by identity; a ring carries an
    `ident` standing for that identity, and a `Series` the identity of its ring. */
module PowerSeriesRings {
  import opened Wrappers
  import opened Dicts
  import opened Sums
  import opened Monomials
  import opened Polynomials
  import opened Sorting
  import opened SeriesBuckets
  import opened SeriesArithmetic
  import PolynomialRings
  import PolynomialMorphisms

  datatype SeriesRing = SeriesRing(
    ident: nat,
    baseRing: RingId,
    ngens: nat,
    weights: seq<int>,
    cap: int,
    one: SeriesData,
    zero: SeriesData,
    gens: seq<SeriesData>)

  /** A `Series`: its data together with the identity of its ring. */
  datatype Series = Series(ring: nat, data: SeriesData)

  // ------------------------------------------------------------ ring(x)

  /** What `ring(x)` is handed: a Python integer, a base-ring scalar (an element
      or its data), or anything else, which is wrapped as it is. */
  datatype SeriesInput =
    | IntArg(n: int)
    | ScalarArg(value: int)
    | DataArg(data: SeriesData)

  /** A single bucket of degree 0 holding the constant `c`, as the constructor
      `PolynomialData(base_ring, {(): c})` builds it. */
  function ConstantBuckets(ring: RingId, c: int): Buckets {
    [Item(0, Make(ring, [Item([], c)]))]
  }

  lemma ConstantBucketsFacts(ring: RingId, c: int)
    ensures BucketsValid(ConstantBuckets(ring, c)) && Ascending(ConstantBuckets(ring, c))
    ensures forall k :: Coeff(Flat(ConstantBuckets(ring, c)), k) == if k == Graded(0, []) then c else 0
  {
    var s := ConstantBuckets(ring, c);
    var d: Terms := [Item([], c)];
    MakeFacts(ring, d);
    assert WellFormed(d[0].key);
    assert Flat(s) == Lift(0, s[0].val.terms) + Flat(s[1..]);
    assert s[1..] == [];
    forall k
      ensures Coeff(Flat(s), k) == if k == Graded(0, []) then c else 0
    {
      CoeffAppend(Lift(0, s[0].val.terms), Flat(s[1..]), k);
      CoeffLift(0, s[0].val.terms, k);
      assert d[1..] == [];
      assert Coeff(d, k.mono) == (if k.mono == [] then c else 0) + Coeff(d[1..], k.mono);
    }
  }

  /** `ring(x)`: the integer 0 gives the empty series, another integer or a
      scalar a single constant bucket of degree 0, at the ring's cap; anything
      else is wrapped unchanged. */
  function Call(r: SeriesRing, x: SeriesInput): (s: Series)
    ensures s.ring == r.ident
    ensures x.DataArg? ==> s.data == x.data
    ensures !x.DataArg? ==> s.data.baseRing == r.baseRing && s.data.cap == r.cap
    ensures !x.DataArg? ==> Ascending(s.data.terms) && BucketsValid(s.data.terms)
    ensures x.IntArg? ==> (s.data.terms == [] <==> x.n == 0) && NoZeroBuckets(s.data.terms)
    ensures x.IntArg? ==> forall k :: Coeff(Flat(s.data.terms), k) == if k == Graded(0, []) then x.n else 0
    ensures x.ScalarArg? ==> |s.data.terms| == 1 && s.data.terms[0].key == 0
    ensures x.ScalarArg? ==> forall k :: Coeff(Flat(s.data.terms), k) == if k == Graded(0, []) then x.value else 0
  {
    match x
    case IntArg(n) =>
      ConstantBucketsFacts(r.baseRing, n);
      if n == 0 then
        Series(r.ident, SeriesData(r.baseRing, [], r.cap))
      else
        var s := ConstantBuckets(r.baseRing, n);
        assert s[0].val.terms == [Item([], n)] by {
          PolynomialRings.NonZeroSingle([], n);
        }
        assert Coeff(s[0].val.terms, []) == n;
        Series(r.ident, SeriesData(r.baseRing, s, r.cap))
    case ScalarArg(c) =>
      ConstantBucketsFacts(r.baseRing, c);
      Series(r.ident, SeriesData(r.baseRing, ConstantBuckets(r.baseRing, c), r.cap))
    case DataArg(d) =>
      Series(r.ident, d)
  }

  /** A zero scalar is not filtered out: `ring(c)` for a scalar `c == 0` holds
      one zero bucket, whereas `ring(0)` has none. */
  lemma ZeroScalar(r: SeriesRing)
    ensures ZeroPoly(Call(r, ScalarArg(0)).data.terms[0].val)
    ensures Call(r, ScalarArg(0)).data != Call(r, IntArg(0)).data
  {
    var d: Terms := [Item([], 0)];
    assert NonZero(d) == [] by {
      PolynomialRings.NonZeroSingle([], 0);
    }
  }

  // ------------------------------------------------------------ weighted degree

  /** The weight of variable `i`; only indices of the ring's variables are read. */
  function WeightOf(weights: seq<int>, i: int): int {
    if 0 <= i < |weights| then weights[i] else 0
  }

  /** The degree a bucketing assigns to a monomial: Σ w_i·e_i, or the total
      degree Σ e_i. */
  datatype DegreeRule = Weighted(weights: seq<int>) | Total

  function WeightedDegree(m: Sparse, weights: seq<int>): int {
    if |m| == 0 then 0
    else WeightedDegree(m[..|m| - 1], weights) + WeightOf(weights, m[|m| - 1].index) * m[|m| - 1].exp
  }

  function DegreeOf(rule: DegreeRule, m: Sparse): int {
    match rule
    case Weighted(ws) => WeightedDegree(m, ws)
    case Total => TotalDegree(m)
  }

  /** Every variable of `m` is one of the `n` variables of the ring. */
  ghost predicate InVariables(m: Sparse, n: int) {
    forall j :: 0 <= j < |m| ==> 0 <= m[j].index < n
  }

  /** The inner loop `deg += weights[i]*e` over the pairs of a monomial. */
  method MonomialWeight(m: Sparse, weights: seq<int>) returns (deg: int)
    requires InVariables(m, |weights|)
    ensures deg == WeightedDegree(m, weights)
  {
    deg := 0;
    for i := 0 to |m|
      invariant deg == WeightedDegree(m[..i], weights)
    {
      assert m[..i + 1][..i] == m[..i];
      deg := deg + weights[m[i].index] * m[i].exp;
    }
    assert m[..|m|] == m;
  }

  lemma {:induction false} TotalDegreeSnoc(m: Sparse)
    requires |m| > 0
    ensures TotalDegree(m) == TotalDegree(m[..|m| - 1]) + m[|m| - 1].exp
  {
    if |m| > 1 {
      assert m[1..][..|m[1..]| - 1] == m[..|m| - 1][1..];
      TotalDegreeSnoc(m[1..]);
    }
  }

  /** With the default unit weights, the weighted degree is the total degree. */
  lemma {:induction false} UnitWeightedDegree(m: Sparse, n: nat)
    requires InVariables(m, n)
    ensures WeightedDegree(m, PolynomialRings.UnitWeights(n)) == TotalDegree(m)
  {
    if |m| > 0 {
      UnitWeightedDegree(m[..|m| - 1], n);
      TotalDegreeSnoc(m);
    }
  }

  /** Positive weights and exponents give a nonnegative degree, 0 only for `()`. */
  lemma {:induction false} WeightedDegreeSign(m: Sparse, weights: seq<int>)
    requires InVariables(m, |weights|) && forall i :: 0 <= i < |weights| ==> weights[i] > 0
    requires forall j :: 0 <= j < |m| ==> m[j].exp > 0
    ensures WeightedDegree(m, weights) >= 0
    ensures WeightedDegree(m, weights) == 0 <==> m == []
  {
    if |m| > 0 {
      WeightedDegreeSign(m[..|m| - 1], weights);
      var w := weights[m[|m| - 1].index];
      assert w * m[|m| - 1].exp >= w;
    }
  }

  /** The reading of line 474 of the nuthatch revision: the weight is taken at
      position `2*i` of the weights, `i` counting pairs, instead of at the
      variable index; past the end of the weights it raises `IndexError`. */
  function WeightedDegreeAsWritten(m: Sparse, weights: seq<int>): (r: Result<int>)
    ensures r.Failure? <==> exists i :: 0 <= i < |m| && 2 * i >= |weights|
  {
    if |m| == 0 then Success(0)
    else
      var i := |m| - 1;
      var rest := WeightedDegreeAsWritten(m[..i], weights);
      assert forall j :: 0 <= j < i ==> m[..i][j] == m[j];
      if rest.Failure? then rest
      else if 2 * i >= |weights| then Failure(IndexError)
      else Success(rest.value + weights[2 * i] * m[i].exp)
  }

  /** With weights (1, 5), the generator x1 has weighted degree 5, but the
      code as written gives it degree 1, the weight of x0. */
  lemma WeightedDegreeCounterexample()
    ensures WeightedDegree([Pair(1, 1)], [1, 5]) == 5
    ensures WeightedDegreeAsWritten([Pair(1, 1)], [1, 5]) == Success(1)
  {
    var m := [Pair(1, 1)];
    assert m[..0] == [];
  }

  // ------------------------------------------------------------ _unflatten_data

  /** The single-term polynomials `{m: c}` of the terms whose degree is below
      the cap, each at its degree, in the order of the dictionary. */
  function Contributions(ring: RingId, t: Terms, rule: DegreeRule, cap: int): Buckets {
    if |t| == 0 then []
    else
      (if DegreeOf(rule, t[0].key) < cap then [Item(DegreeOf(rule, t[0].key), Make(ring, [t[0]]))] else [])
      + Contributions(ring, t[1..], rule, cap)
  }

  /** `_unflatten_data(p)`: every term below the cap added into the bucket of its
      degree, the buckets read back in ascending order, zero ones included. */
  ghost function UnflattenOf(ring: RingId, p: PolynomialData, rule: DegreeRule, cap: int): SeriesData {
    SeriesData(ring, Finish(Gather([], Contributions(ring, p.terms, rule, cap)), false), cap)
  }

  lemma SingleTerm(ring: RingId, x: Item<Sparse, int>)
    ensures DistinctKeys(Make(ring, [x]).terms)
    ensures WellFormed(x.key) ==> Valid(Make(ring, [x]))
    ensures forall k :: Coeff(Make(ring, [x]).terms, k) == if k == x.key then x.val else 0
  {
    var d := [x];
    MakeFacts(ring, d);
    assert d[1..] == [];
    PolynomialRings.NonZeroSingle(x.key, x.val);
  }

  lemma {:induction false} ContributionsFacts(ring: RingId, t: Terms, rule: DegreeRule, cap: int)
    ensures BucketsOk(Contributions(ring, t, rule, cap))
    ensures KeysWellFormed(t) ==> BucketsValid(Contributions(ring, t, rule, cap))
    ensures forall i :: 0 <= i < |Contributions(ring, t, rule, cap)| ==>
      Contributions(ring, t, rule, cap)[i].key < cap &&
      Contributions(ring, t, rule, cap)[i].val.baseRing == ring
    ensures forall k :: (Coeff(Flat(Contributions(ring, t, rule, cap)), k) ==
      if k.deg < cap && k.deg == DegreeOf(rule, k.mono) then Coeff(t, k.mono) else 0)
  {
    if |t| > 0 {
      var d := DegreeOf(rule, t[0].key);
      var head: Buckets := if d < cap then [Item(d, Make(ring, [t[0]]))] else [];
      var rest := Contributions(ring, t[1..], rule, cap);
      var cs := Contributions(ring, t, rule, cap);
      ContributionsFacts(ring, t[1..], rule, cap);
      SingleTerm(ring, t[0]);
      assert cs == head + rest;
      forall i | 0 <= i < |cs|
        ensures DistinctKeys(cs[i].val.terms) && cs[i].key < cap && cs[i].val.baseRing == ring
        ensures KeysWellFormed(t) ==> Valid(cs[i].val)
      {
        if i >= |head| {
          assert cs[i] == rest[i - |head|];
        }
      }
      FlatAppend(head, rest);
      forall k
        ensures Coeff(Flat(cs), k) == if k.deg < cap && k.deg == DegreeOf(rule, k.mono) then Coeff(t, k.mono) else 0
      {
        CoeffAppend(Flat(head), Flat(rest), k);
        if d < cap {
          FlatSingle(head[0]);
          CoeffLift(d, Make(ring, [t[0]]).terms, k);
        }
      }
    }
  }

  lemma UnflattenStep(D: Buckets, ring: RingId, t: Terms, rule: DegreeRule, cap: int, i: nat, target: Buckets)
    requires i < |t| && DistinctKeys(D) && BucketsOk(D)
    requires Gather(D, Contributions(ring, t[i..], rule, cap)) == target
    ensures DegreeOf(rule, t[i].key) < cap ==>
      var D' := AddInto(D, DegreeOf(rule, t[i].key), Make(ring, [t[i]]));
      DistinctKeys(D') && BucketsOk(D') && Gather(D', Contributions(ring, t[i + 1..], rule, cap)) == target
    ensures DegreeOf(rule, t[i].key) >= cap ==> Gather(D, Contributions(ring, t[i + 1..], rule, cap)) == target
  {
    assert t[i..][1..] == t[i + 1..];
    assert t[i..][0] == t[i];
    SingleTerm(ring, t[i]);
    var rest := Contributions(ring, t[i + 1..], rule, cap);
    if DegreeOf(rule, t[i].key) < cap {
      GatherCons(D, Item(DegreeOf(rule, t[i].key), Make(ring, [t[i]])), rest);
      AddIntoFacts(D, DegreeOf(rule, t[i].key), Make(ring, [t[i]]));
    } else {
      assert Contributions(ring, t[i..], rule, cap) == [] + rest;
      assert [] + rest == rest;
    }
  }

  lemma EmitAllStep(D: Buckets, ks: seq<int>, i: nat)
    requires i < |ks|
    ensures Emit(D, ks[..i + 1], false) == Emit(D, ks[..i], false) + [Item(ks[i], Get(D, ks[i], NoBucket))]
  {
    assert ks[..i + 1][..i] == ks[..i];
  }

  /** `out_degrees_list.sort()` and the loop appending every bucket. */
  method ReadBack(D: Buckets) returns (out: Buckets)
    ensures out == Finish(D, false)
  {
    var ks := Sort(Keys(D));
    out := [];
    for i := 0 to |ks|
      invariant out == Emit(D, ks[..i], false)
    {
      EmitAllStep(D, ks, i);
      out := out + [Item(ks[i], Get(D, ks[i], NoBucket))];
    }
    assert ks[..|ks|] == ks;
  }

  /** `PowerSeriesRing._unflatten_data` of the nuthatch revision, with the
      weighted degree Σ weights[i]·e_i of each monomial. */
  method UnflattenData(r: SeriesRing, p: PolynomialData) returns (s: SeriesData)
    requires forall i :: 0 <= i < |p.terms| ==> InVariables(p.terms[i].key, |r.weights|)
    ensures s == UnflattenOf(r.baseRing, p, Weighted(r.weights), r.cap)
  {
    var rule := Weighted(r.weights);
    ghost var target := Gather([], Contributions(r.baseRing, p.terms, rule, r.cap));
    var outDegrees: Buckets := [];
    assert p.terms[0..] == p.terms;
    for i := 0 to |p.terms|
      invariant DistinctKeys(outDegrees) && BucketsOk(outDegrees)
      invariant Gather(outDegrees, Contributions(r.baseRing, p.terms[i..], rule, r.cap)) == target
    {
      UnflattenStep(outDegrees, r.baseRing, p.terms, rule, r.cap, i, target);
      var deg := MonomialWeight(p.terms[i].key, r.weights);
      if deg < r.cap {
        SingleTerm(r.baseRing, p.terms[i]);
        var single := New(r.baseRing, [p.terms[i]]);
        outDegrees := Accumulate(outDegrees, deg, single);
      }
    }
    assert p.terms[|p.terms|..] == [];
    var termList := ReadBack(outDegrees);
    return SeriesData(r.baseRing, termList, r.cap);
  }

  /** `PowerSeriesRing._unflatten_data` of the src revision, which buckets each
      monomial by its total degree `m.degree()`. */
  method UnflattenDataTotal(r: SeriesRing, p: PolynomialData) returns (s: SeriesData)
    ensures s == UnflattenOf(r.baseRing, p, Total, r.cap)
  {
    ghost var target := Gather([], Contributions(r.baseRing, p.terms, Total, r.cap));
    var outDegrees: Buckets := [];
    assert p.terms[0..] == p.terms;
    for i := 0 to |p.terms|
      invariant DistinctKeys(outDegrees) && BucketsOk(outDegrees)
      invariant Gather(outDegrees, Contributions(r.baseRing, p.terms[i..], Total, r.cap)) == target
    {
      UnflattenStep(outDegrees, r.baseRing, p.terms, Total, r.cap, i, target);
      var deg := TotalDegree(p.terms[i].key);
      if deg < r.cap {
        SingleTerm(r.baseRing, p.terms[i]);
        var single := New(r.baseRing, [p.terms[i]]);
        outDegrees := Accumulate(outDegrees, deg, single);
      }
    }
    assert p.terms[|p.terms|..] == [];
    var termList := ReadBack(outDegrees);
    return SeriesData(r.baseRing, termList, r.cap);
  }

  /** Each term lands in the bucket of its degree, terms of degree at or above
      the cap are dropped, and nothing else is added. */
  lemma UnflattenCoeffs(ring: RingId, p: PolynomialData, rule: DegreeRule, cap: int)
    ensures forall k :: (Coeff(Flat(UnflattenOf(ring, p, rule, cap).terms), k) ==
      if k.deg < cap && k.deg == DegreeOf(rule, k.mono) then Coeff(p.terms, k.mono) else 0)
  {
    var cs := Contributions(ring, p.terms, rule, cap);
    ContributionsFacts(ring, p.terms, rule, cap);
    GatherFacts([], cs);
    FinishCoeffs(Gather([], cs), false);
    forall k
      ensures Coeff(Flat([]) + Flat(cs), k) == Coeff(Flat(cs), k)
    {
      CoeffAppend(Flat([]), Flat(cs), k);
    }
  }

  /** The buckets come out in strictly ascending degree, all below the cap,
      over the ring's base ring, and valid when `p` is. */
  lemma UnflattenShape(ring: RingId, p: PolynomialData, rule: DegreeRule, cap: int)
    ensures UnflattenOf(ring, p, rule, cap).baseRing == ring && UnflattenOf(ring, p, rule, cap).cap == cap
    ensures Ascending(UnflattenOf(ring, p, rule, cap).terms)
    ensures BucketsOk(UnflattenOf(ring, p, rule, cap).terms)
    ensures forall i :: 0 <= i < |UnflattenOf(ring, p, rule, cap).terms| ==>
      UnflattenOf(ring, p, rule, cap).terms[i].key < cap &&
      UnflattenOf(ring, p, rule, cap).terms[i].val.baseRing == ring
    ensures Valid(p) ==> BucketsValid(UnflattenOf(ring, p, rule, cap).terms)
  {
    var cs := Contributions(ring, p.terms, rule, cap);
    var D := Gather([], cs);
    ContributionsFacts(ring, p.terms, rule, cap);
    GatherFacts([], cs);
    FinishFacts(D, false);
    GatherRing([], cs, ring);
    var e := Finish(D, false);
    forall i | 0 <= i < |e|
      ensures e[i].key < cap && e[i].val.baseRing == ring
    {
      assert Has(D, e[i].key);
      HasIff(cs, e[i].key);
      assert D[Find(D, e[i].key)].val == e[i].val;
    }
  }

  /** Accumulating buckets over one base ring stays over it. */
  lemma {:induction false} GatherRing(D: Buckets, cs: Buckets, ring: RingId)
    requires forall i :: 0 <= i < |D| ==> D[i].val.baseRing == ring
    requires forall i :: 0 <= i < |cs| ==> cs[i].val.baseRing == ring
    ensures forall i :: 0 <= i < |Gather(D, cs)| ==> Gather(D, cs)[i].val.baseRing == ring
    decreases |cs|
  {
    if |cs| > 0 {
      var D' := AddInto(D, cs[0].key, cs[0].val);
      if Has(D, cs[0].key) {
        assert D' == D[Find(D, cs[0].key) := Item(cs[0].key, SumOf(D[Find(D, cs[0].key)].val, cs[0].val))];
      } else {
        assert D' == D + [Item(cs[0].key, cs[0].val)];
      }
      assert forall i :: 0 <= i < |cs[1..]| ==> cs[1..][i] == cs[i + 1];
      GatherRing(D', cs[1..], ring);
    }
  }

  /** The degree of the generator x_i: its weight, or 1 by total degree. */
  lemma GeneratorDegree(rule: DegreeRule, i: nat)
    ensures DegreeOf(rule, [Pair(i, 1)]) == if rule.Weighted? then WeightOf(rule.weights, i) else 1
  {
    var m := [Pair(i, 1)];
    assert m[..0] == [];
    assert m[1..] == [];
    if rule.Weighted? {
      assert WeightedDegree(m, rule.weights) == WeightedDegree(m[..0], rule.weights) + WeightOf(rule.weights, i) * 1;
    } else {
      assert TotalDegree(m) == 1 + TotalDegree(m[1..]);
    }
  }

  /** The buckets of the generator x_i: the single bucket x_i·T^d at its degree
      d, or none when d reaches the cap. */
  function GeneratorBuckets(ring: RingId, i: nat, rule: DegreeRule, cap: int): Buckets {
    var d := DegreeOf(rule, [Pair(i, 1)]);
    if d < cap then [Item(d, PolynomialRings.Generator(ring, i))] else []
  }

  /** A generator contributes one bucket at its degree, or none past the cap. */
  lemma GeneratorContributions(ring: RingId, i: nat, rule: DegreeRule, cap: int)
    ensures Contributions(ring, PolynomialRings.Generator(ring, i).terms, rule, cap) == GeneratorBuckets(ring, i, rule, cap)
  {
    var g := PolynomialRings.Generator(ring, i);
    var m := [Pair(i, 1)];
    assert g.terms[1..] == [];
    PolynomialRings.NonZeroSingle(m, 1);
    assert Make(ring, [g.terms[0]]) == g;
    assert Contributions(ring, g.terms[1..], rule, cap) == [];
  }

  lemma UnflattenGenerator(ring: RingId, i: nat, rule: DegreeRule, cap: int)
    ensures UnflattenOf(ring, PolynomialRings.Generator(ring, i), rule, cap).terms == GeneratorBuckets(ring, i, rule, cap)
  {
    GeneratorContributions(ring, i, rule, cap);
    var cs := GeneratorBuckets(ring, i, rule, cap);
    var none: Buckets := [];
    if cs != [] {
      var d, g := cs[0].key, cs[0].val;
      var D := Gather([], cs);
      assert D == [Item(d, g)] by {
        assert cs[1..] == [];
        assert !Has(none, d);
        assert AddInto(none, d, g) == [Item(d, g)];
        assert D == Gather(AddInto(none, d, g), cs[1..]);
      }
      assert Keys(D) == [d];
      assert Sort([d]) == [d];
      var ks := [d];
      assert ks[..0] == [];
      assert Emit(D, ks, false) == Emit(D, ks[..0], false) + [Item(d, Get(D, d, NoBucket))];
    } else {
      assert Keys(none) == [];
    }
  }


  // ------------------------------------------------------------ construction

  /** `for i in weights: if i <= 0: raise ValueError`. */
  method CheckWeights(weights: seq<int>) returns (ok: bool)
    ensures ok <==> forall i :: 0 <= i < |weights| ==> weights[i] > 0
  {
    for i := 0 to |weights|
      invariant forall j :: 0 <= j < i ==> weights[j] > 0
    {
      if weights[i] <= 0 {
        return false;
      }
    }
    return true;
  }

  /** The weights a ring is built with are acceptable. */
  ghost predicate WeightsAccepted(ngens: nat, weights: Option<seq<int>>) {
    weights.None? ||
    (|weights.value| == ngens && forall i :: 0 <= i < |weights.value| ==> weights.value[i] > 0)
  }

  /** The degree rule of a revision: the nuthatch `_unflatten_data` weighs
      the variables, the src one takes the total degree. */
  function RuleOf(r: SeriesRing, totalDegree: bool): DegreeRule {
    if totalDegree then Total else Weighted(r.weights)
  }

  /** What the constructor establishes: positive weights, one per generator;
      `one` and `zero` are `ring(1)` and `ring(0)`; the generators are the
      polynomial generators x_i re-bucketed by `_unflatten_data`. */
  ghost predicate Constructed(r: SeriesRing, totalDegree: bool) {
    |r.weights| == r.ngens && (forall i :: 0 <= i < r.ngens ==> r.weights[i] > 0) &&
    r.one == Call(r, IntArg(1)).data && r.zero == Call(r, IntArg(0)).data &&
    |r.gens| == r.ngens &&
    forall i :: 0 <= i < r.ngens ==> IsGenerator(r, totalDegree, i, r.gens[i])
  }

  /** `s` is the i-th generator of the series ring `r`: x_i·T^d at its degree d
      under the revision's rule, or the empty series when d reaches the cap. */
  ghost predicate IsGenerator(r: SeriesRing, totalDegree: bool, i: nat, s: SeriesData) {
    s == SeriesData(r.baseRing, GeneratorBuckets(r.baseRing, i, RuleOf(r, totalDegree), r.cap), r.cap)
  }

  /** `self._unflatten(generator)` for the i-th polynomial generator. */
  method GeneratorSeries(r: SeriesRing, totalDegree: bool, i: nat) returns (g: SeriesData)
    requires i < |r.weights|
    ensures IsGenerator(r, totalDegree, i, g)
  {
    var x := PolynomialRings.Generator(r.baseRing, i);
    assert x.terms[0].key == [Pair(i, 1)];
    if totalDegree {
      g := UnflattenDataTotal(r, x);
    } else {
      g := UnflattenData(r, x);
    }
    UnflattenGenerator(r.baseRing, i, RuleOf(r, totalDegree), r.cap);
  }

  /** `for generator in self._polynomial_ring.gens: self.gens.append(self._unflatten(generator))`. */
  method Generators(r: SeriesRing, totalDegree: bool) returns (gens: seq<SeriesData>)
    requires |r.weights| == r.ngens
    ensures |gens| == r.ngens
    ensures forall i :: 0 <= i < r.ngens ==> IsGenerator(r, totalDegree, i, gens[i])
  {
    gens := [];
    for i := 0 to r.ngens
      invariant |gens| == i
      invariant forall j :: 0 <= j < i ==> IsGenerator(r, totalDegree, j, gens[j])
    {
      var g := GeneratorSeries(r, totalDegree, i);
      gens := gens + [g];
    }
  }

  /** `PowerSeriesRing(base_ring=…, ngens=…, precision_cap=…, weights=…)`:
      weights default to 1, and otherwise a wrong count or a non-positive
      weight raises `ValueError`.  `totalDegree` selects the src revision,
      whose generators are bucketed by total degree. */
  method NewSeriesRing(ident: nat, baseRing: RingId, ngens: nat, cap: int, weights: Option<seq<int>>, totalDegree: bool)
    returns (r: Result<SeriesRing>)
    ensures r.Success? <==> WeightsAccepted(ngens, weights)
    ensures r.Failure? ==> r.error == ValueError
    ensures r.Success? ==>
      r.value.ident == ident && r.value.baseRing == baseRing && r.value.ngens == ngens && r.value.cap == cap &&
      r.value.weights == (if weights.Some? then weights.value else PolynomialRings.UnitWeights(ngens))
    ensures r.Success? ==> Constructed(r.value, totalDegree)
  {
    var ws: seq<int>;
    if weights.None? {
      ws := PolynomialRings.UnitWeights(ngens);
    } else {
      if |weights.value| != ngens {
        return Failure(ValueError);
      }
      var ok := CheckWeights(weights.value);
      if !ok {
        return Failure(ValueError);
      }
      ws := weights.value;
    }
    var ring := SeriesRing(ident, baseRing, ngens, ws, cap, SeriesData(baseRing, [], cap), SeriesData(baseRing, [], cap), []);
    ring := ring.(one := Call(ring, IntArg(1)).data, zero := Call(ring, IntArg(0)).data);
    var gens := Generators(ring, totalDegree);
    return Success(ring.(gens := gens));
  }

  // ------------------------------------------------------------ morphisms

  datatype SeriesMorphism = SeriesMorphism(
    domain: SeriesRing,
    codomain: SeriesRing,
    coefficients: PolynomialMorphisms.CoefficientMorphism,
    images: seq<Series>)

  /** The constructor's conditions: φ goes between the two base rings, there is
      one image per generator, the codomain's cap does not exceed the domain's,
      and each image lies in the codomain. */
  ghost predicate SeriesAdmissible(domain: SeriesRing, codomain: SeriesRing, phi: PolynomialMorphisms.CoefficientMorphism, action: seq<Series>) {
    domain.baseRing == phi.domain && codomain.baseRing == phi.codomain &&
    |action| == domain.ngens && codomain.cap <= domain.cap &&
    forall i :: 0 <= i < |action| ==> action[i].ring == codomain.ident
  }

  /** `PowerSeriesRingMorphism(domain=…, codomain=…, coefficient_morphism=…, action_on_generators=…)`:
      the checks in their order, `TypeError` for incompatible base rings or a
      wrong number of images, `ValueError` for a codomain cap above the domain
      cap, `TypeError` for an image outside the codomain. */
  method NewSeriesMorphism(domain: SeriesRing, codomain: SeriesRing, phi: PolynomialMorphisms.CoefficientMorphism, action: seq<Series>)
    returns (r: Result<SeriesMorphism>)
    ensures r.Success? <==> SeriesAdmissible(domain, codomain, phi, action)
    ensures r.Failure? ==> (r.error ==
      if domain.baseRing != phi.domain || codomain.baseRing != phi.codomain || |action| != domain.ngens then TypeError
      else if codomain.cap > domain.cap then ValueError
      else TypeError)
    ensures r.Success? ==> r.value == SeriesMorphism(domain, codomain, phi, action)
  {
    if domain.baseRing != phi.domain || codomain.baseRing != phi.codomain {
      return Failure(TypeError);
    }
    if |action| != domain.ngens {
      return Failure(TypeError);
    }
    if codomain.cap > domain.cap {
      return Failure(ValueError);
    }
    for i := 0 to |action|
      invariant forall j :: 0 <= j < i ==> action[j].ring == codomain.ident
    {
      if action[i].ring != codomain.ident {
        return Failure(TypeError);
      }
    }
    return Success(SeriesMorphism(domain, codomain, phi, action));
  }
}
