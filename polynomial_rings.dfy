/** `PolynomialRing`: generators, weights, and the conversions of `ring(x)`.

    Rings and polynomials are Python objects compared by identity; a ring
    carries an `ident` standing for that identity. Monomial keys are kept in
    sparse form; for a packed ring the code stores their packed weight, which
    `Monomials` proves to be a faithful encoding. */
module PolynomialRings {
  import opened Wrappers
  import opened Dicts
  import opened Sums
  import opened Monomials
  import opened Polynomials

  datatype PolynomialRing = PolynomialRing(
    ident: nat,
    baseRing: RingId,
    ngens: nat,
    weights: seq<int>,
    packed: bool,
    gens: seq<PolynomialData>,
    one: PolynomialData,
    zero: PolynomialData)

  /** A `Polynomial`: its data together with the identity of its ring. */
  datatype Polynomial = Polynomial(ring: nat, data: PolynomialData)

  /** The single term `{(i, 1): 1}`, the i-th generator. */
  function Generator(ring: RingId, i: nat): PolynomialData {
    PolynomialData(ring, [Item([Pair(i, 1)], 1)])
  }

  /** The default weights `[1 for i in range(ngens)]`. */
  function UnitWeights(n: nat): (w: seq<int>)
    ensures |w| == n && forall i :: 0 <= i < n ==> w[i] == 1
  {
    seq(n, i => 1)
  }

  /** The i-th generator is a valid polynomial whose only coefficient is 1 at x_i,
      and it evaluates to the i-th argument. */
  lemma GeneratorFacts(ring: RingId, i: nat, args: seq<int>)
    ensures Valid(Generator(ring, i))
    ensures forall m :: Coeff(Generator(ring, i).terms, m) == if m == [Pair(i, 1)] then 1 else 0
    ensures i < |args| ==> EvalAt(Generator(ring, i).terms, args) == args[i]
  {
    var t := [Pair(i, 1)];
    var g := Generator(ring, i).terms;
    assert MonoValue(t, args) == ArgAt(args, i) by {
      assert t[1..] == [];
      assert Pow(ArgAt(args, i), 1) == ArgAt(args, i) * Pow(ArgAt(args, i), 0);
    }
    assert g[1..] == [];
    assert EvalAt(g, args) == 1 * MonoOf(args)(t) + Total(g[1..], MonoOf(args));
  }

  /** What `ring(x)` is handed: one case per branch of the conversion. */
  datatype CallInput =
    | IntInput(n: int)
    | DictInput(d: Terms)
    | ElementInput(e: Polynomial)
    | DataInput(p: PolynomialData)
    | ScalarInput(scalarRing: RingId, value: int)
    | OtherInput

  /** The constant polynomial `n` over `ring`: no terms when `n` is zero. */
  function Constant(ring: RingId, n: int): (c: PolynomialData)
    ensures Valid(c) && c.baseRing == ring
    ensures forall m :: Coeff(c.terms, m) == if m == [] then n else 0
  {
    if n == 0 then PolynomialData(ring, []) else PolynomialData(ring, [Item([], n)])
  }

  lemma NonZeroSingle(k: Sparse, v: int)
    ensures NonZero([Item(k, v)]) == if v == 0 then [] else [Item(k, v)]
  {
    var d := [Item(k, v)];
    assert d[1..] == [];
  }

  /** `ring(x)`: an integer or a base-ring scalar becomes a constant, a dictionary of
      sparse tuples is converted key by key, an element of this ring or data over
      its base ring is wrapped again, and anything else raises `TypeError`. */
  method Call(r: PolynomialRing, x: CallInput) returns (res: Result<Polynomial>)
    requires x.DictInput? ==> DistinctKeys(x.d)
    ensures res.Failure? <==>
      (x.ElementInput? && x.e.ring != r.ident) || (x.DataInput? && x.p.baseRing != r.baseRing) ||
      (x.ScalarInput? && x.scalarRing != r.baseRing) || x.OtherInput?
    ensures res.Failure? ==> res.error == TypeError
    ensures res.Success? ==> res.value.ring == r.ident
    ensures res.Success? && x.IntInput? ==> res.value.data == Constant(r.baseRing, x.n)
    ensures res.Success? && x.ScalarInput? ==> res.value.data == Constant(r.baseRing, x.value)
    ensures res.Success? && x.DictInput? ==>
      res.value.data.baseRing == r.baseRing &&
      (forall it :: it in res.value.data.terms <==> it in x.d && it.val != 0) &&
      SameCoeffs(res.value.data.terms, x.d) &&
      (KeysWellFormed(x.d) ==> Valid(res.value.data))
    ensures res.Success? && x.ElementInput? ==> res.value.data == x.e.data
    ensures res.Success? && x.DataInput? ==> res.value.data == x.p
  {
    match x
    case IntInput(n) =>
      var d: Terms := [Item([], n)];
      NonZeroSingle([], n);
      var data := New(r.baseRing, d);
      return Success(Polynomial(r.ident, data));
    case DictInput(d) =>
      var newDict: Terms := [];
      for i := 0 to |d|
        invariant newDict == d[..i]
      {
        PutFresh(newDict, d[i].key, d[i].val);
        newDict := Put(newDict, d[i].key, d[i].val);
        assert d[..i + 1] == d[..i] + [d[i]];
      }
      assert newDict == d;
      var data := New(r.baseRing, newDict);
      MakeFacts(r.baseRing, d);
      return Success(Polynomial(r.ident, data));
    case ElementInput(e) =>
      if e.ring == r.ident {
        return Success(Polynomial(r.ident, e.data));
      }
      return Failure(TypeError);
    case DataInput(p) =>
      if p.baseRing == r.baseRing {
        return Success(Polynomial(r.ident, p));
      }
      return Failure(TypeError);
    case ScalarInput(s, v) =>
      if s == r.baseRing {
        var d: Terms := [Item([], v)];
        NonZeroSingle([], v);
        var data := New(r.baseRing, d);
        return Success(Polynomial(r.ident, data));
      }
      return Failure(TypeError);
    case OtherInput =>
      return Failure(TypeError);
  }

  /** What the constructor establishes: one weight and one generator x_i per
      variable, `one` the constant 1 and `zero` the empty polynomial. */
  ghost predicate Constructed(r: PolynomialRing) {
    |r.weights| == r.ngens && |r.gens| == r.ngens &&
    (forall i :: 0 <= i < r.ngens ==> r.gens[i] == Generator(r.baseRing, i)) &&
    r.one == One(r.baseRing) && r.zero == PolynomialData(r.baseRing, [])
  }

  /** `PolynomialRing(base_ring=…, ngens=…, weights=…, packed=…)`: weights default
      to 1 and must otherwise number `ngens` (`ValueError`); the generators are the
      single terms x_i; `one` and `zero` are `ring(1)` and `ring(0)`. */
  method NewRing(ident: nat, baseRing: RingId, ngens: nat, weights: Option<seq<int>>, packed: bool)
    returns (r: Result<PolynomialRing>)
    ensures r.Failure? <==> weights.Some? && |weights.value| != ngens
    ensures r.Failure? ==> r.error == ValueError
    ensures r.Success? ==>
      r.value.ident == ident && r.value.baseRing == baseRing &&
      r.value.ngens == ngens && r.value.packed == packed
    ensures r.Success? ==> r.value.weights == if weights.Some? then weights.value else UnitWeights(ngens)
    ensures r.Success? ==> Constructed(r.value)
  {
    var ws: seq<int>;
    if weights.None? {
      ws := UnitWeights(ngens);
    } else {
      if |weights.value| != ngens {
        return Failure(ValueError);
      }
      ws := weights.value;
    }
    var gens: seq<PolynomialData> := [];
    for i := 0 to ngens
      invariant |gens| == i
      invariant forall j :: 0 <= j < i ==> gens[j] == Generator(baseRing, j)
    {
      gens := gens + [Generator(baseRing, i)];
    }
    var ring := PolynomialRing(ident, baseRing, ngens, ws, packed, gens, One(baseRing), PolynomialData(baseRing, []));
    var one := Call(ring, IntInput(1));
    var zero := Call(ring, IntInput(0));
    return Success(ring.(one := one.value.data, zero := zero.value.data));
  }

  /** `ring(n)` evaluates to `n` at every point. */
  lemma ConstantEval(ring: RingId, n: int, args: seq<int>)
    ensures EvalAt(Constant(ring, n).terms, args) == n
  {
    var c := Constant(ring, n).terms;
    if n != 0 {
      assert c[1..] == [];
      assert MonoOf(args)([]) == 1;
      assert EvalAt(c, args) == n * MonoOf(args)([]) + Total(c[1..], MonoOf(args));
    }
  }
}
