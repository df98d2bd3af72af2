/** `PolynomialRingMorphism`: the structural checks of its constructor and the
    rule that sends a monomial Π x_i^e_i to Π f_i^e_i, where f_i are the images
    of the generators, and a polynomial Σ c·m to Σ φ(c)·image(m). */
module PolynomialMorphisms {
  import opened Wrappers
  import opened Dicts
  import opened Sums
  import opened Monomials
  import opened Polynomials
  import opened PowerLaws
  import opened PolynomialPower
  import opened PolynomialRings

  /** The coefficient morphism φ between base rings, with its action on coefficients. */
  datatype CoefficientMorphism = CoefficientMorphism(domain: RingId, codomain: RingId, act: int -> int)

  datatype Morphism = Morphism(
    domain: PolynomialRing,
    codomain: PolynomialRing,
    coefficients: CoefficientMorphism,
    images: seq<PolynomialData>)

  /** `e` is an element of `r` as the code builds them: valid data over r's base ring. */
  ghost predicate ElementOf(e: Polynomial, r: PolynomialRing) {
    e.ring == r.ident && e.data.baseRing == r.baseRing && Valid(e.data)
  }

  /** A morphism whose codomain was built by the ring constructor and whose
      images are valid polynomials over the codomain's base ring. */
  ghost predicate MorphismValid(m: Morphism) {
    Constructed(m.codomain) &&
    forall i :: 0 <= i < |m.images| ==> Valid(m.images[i]) && m.images[i].baseRing == m.codomain.baseRing
  }

  // ------------------------------------------------------------ construction

  /** The constructor's checks, in the corrected reading: φ must go between the
      two base rings, there must be one image per generator, and each image must
      belong to the codomain. */
  ghost predicate Admissible(domain: PolynomialRing, codomain: PolynomialRing, phi: CoefficientMorphism, action: seq<Polynomial>) {
    domain.baseRing == phi.domain && codomain.baseRing == phi.codomain &&
    |action| == domain.ngens &&
    forall i :: 0 <= i < |action| ==> action[i].ring == codomain.ident
  }

  /** `PolynomialRingMorphism(domain=…, codomain=…, coefficient_morphism=…, action_on_generators=…)`
      without the precision-cap comparison, which polynomial rings cannot answer. */
  method NewMorphism(domain: PolynomialRing, codomain: PolynomialRing, phi: CoefficientMorphism, action: seq<Polynomial>)
    returns (r: Result<Morphism>)
    ensures r.Success? <==> Admissible(domain, codomain, phi, action)
    ensures r.Failure? ==> r.error == TypeError
    ensures r.Success? ==>
      r.value.domain == domain && r.value.codomain == codomain && r.value.coefficients == phi &&
      |r.value.images| == |action| && forall i :: 0 <= i < |action| ==> r.value.images[i] == action[i].data
    ensures r.Success? && Constructed(codomain) && (forall i :: 0 <= i < |action| ==> ElementOf(action[i], codomain)) ==>
      MorphismValid(r.value)
  {
    if domain.baseRing != phi.domain || codomain.baseRing != phi.codomain {
      return Failure(TypeError);
    }
    if |action| != domain.ngens {
      return Failure(TypeError);
    }
    var images: seq<PolynomialData> := [];
    for i := 0 to |action|
      invariant |images| == i
      invariant forall j :: 0 <= j < i ==> action[j].ring == codomain.ident && images[j] == action[j].data
    {
      if action[i].ring != codomain.ident {
        return Failure(TypeError);
      }
      images := images + [action[i].data];
    }
    return Success(Morphism(domain, codomain, phi, images));
  }

  /** The constructor as written: after the two `TypeError` checks it reads
      `precision_cap` of both rings, an attribute polynomial rings do not have. */
  function NewMorphismAsWritten(domain: PolynomialRing, codomain: PolynomialRing, phi: CoefficientMorphism, action: seq<Polynomial>)
    : (r: Result<Morphism>)
    ensures r.Failure?
    ensures domain.baseRing == phi.domain && codomain.baseRing == phi.codomain && |action| == domain.ngens ==>
      r.error == AttributeError
  {
    if domain.baseRing != phi.domain || codomain.baseRing != phi.codomain then Failure(TypeError)
    else if |action| != domain.ngens then Failure(TypeError)
    else Failure(AttributeError)
  }

  // ------------------------------------------------------------ the monomial rule

  /** Every index of `t` names one of `n` images. */
  ghost predicate IndicesBelow(t: Sparse, n: nat) {
    forall j :: 0 <= j < |t| ==> t[j].index < n
  }

  /** Indices and exponents are nonnegative, as in every well-formed monomial. */
  ghost predicate NonNegative(t: Sparse) {
    forall j :: 0 <= j < |t| ==> t[j].index >= 0 && t[j].exp >= 0
  }

  /** The image of `t`: 1 times f_i^e for each pair (i, e), left to right. */
  function MonoImage(images: seq<PolynomialData>, t: Sparse, ring: RingId): PolynomialData
    requires NonNegative(t) && IndicesBelow(t, |images|)
    decreases |t|
  {
    if |t| == 0 then One(ring)
    else
      var last := t[|t| - 1];
      ProductOf(MonoImage(images, t[..|t| - 1], ring), NFold(images[last.index], last.exp))
  }

  lemma {:induction false} MonoImageValid(images: seq<PolynomialData>, t: Sparse, ring: RingId)
    requires NonNegative(t) && IndicesBelow(t, |images|)
    requires forall i :: 0 <= i < |images| ==> Valid(images[i]) && images[i].baseRing == ring
    ensures Valid(MonoImage(images, t, ring)) && MonoImage(images, t, ring).baseRing == ring
    decreases |t|
  {
    if |t| > 0 {
      var last := t[|t| - 1];
      MonoImageValid(images, t[..|t| - 1], ring);
      NFoldValid(images[last.index], last.exp);
      ProductValid(MonoImage(images, t[..|t| - 1], ring), NFold(images[last.index], last.exp));
    }
  }

  /** One iteration of the monomial loop: from the image of t[..j] to that of t[..j+1]. */
  lemma ImageStep(images: seq<PolynomialData>, t: Sparse, j: nat, ring: RingId, x: PolynomialData, y: PolynomialData)
    requires j < |t| && NonNegative(t) && IndicesBelow(t[..j], |images|) && t[j].index < |images|
    requires forall i :: 0 <= i < |images| ==> Valid(images[i]) && images[i].baseRing == ring
    requires Valid(x) && Equals(x, MonoImage(images, t[..j], ring))
    requires Valid(y) && Equals(y, NFold(images[t[j].index], t[j].exp))
    ensures IndicesBelow(t[..j + 1], |images|)
    ensures Valid(ProductOf(x, y)) && Equals(ProductOf(x, y), MonoImage(images, t[..j + 1], ring))
  {
    var s := t[..j + 1];
    assert s[..|s| - 1] == t[..j] && s[|s| - 1] == t[j];
    forall k | 0 <= k < |s|
      ensures s[k].index < |images|
    {
      if k < j {
        assert s[k] == t[..j][k];
      }
    }
    MonoImageValid(images, t[..j], ring);
    NFoldValid(images[t[j].index], t[j].exp);
    ProductValid(x, y);
    ProductEquals(x, MonoImage(images, t[..j], ring), y, NFold(images[t[j].index], t[j].exp));
  }

  /** `_call_on_monomial(t)`, reading the pairs of `t` through `t.degrees`: the
      codomain's one times `images[i] ** e` for each pair; an index with no image
      raises `IndexError`. */
  method MonomialImage(m: Morphism, t: Sparse) returns (r: Result<PolynomialData>)
    requires MorphismValid(m) && NonNegative(t)
    ensures r.Failure? <==> !IndicesBelow(t, |m.images|)
    ensures r.Failure? ==> r.error == IndexError
    ensures r.Success? ==>
      Valid(r.value) && r.value.baseRing == m.codomain.baseRing &&
      Equals(r.value, MonoImage(m.images, t, m.codomain.baseRing))
  {
    var ring := m.codomain.baseRing;
    var res := m.codomain.one;
    assert res == One(ring);
    for j := 0 to |t|
      invariant IndicesBelow(t[..j], |m.images|)
      invariant Valid(res) && res.baseRing == ring && Equals(res, MonoImage(m.images, t[..j], ring))
    {
      var idx, e := t[j].index, t[j].exp;
      if idx >= |m.images| {
        return Failure(IndexError);
      }
      var pw := Power(m.images[idx], IntExp(e));
      ImageStep(m.images, t, j, ring, res, pw.value);
      var prod := Mul(res, pw.value);
      res := prod.value;
    }
    assert t[..|t|] == t;
    return Success(res);
  }

  /** `_call_on_monomial` as written: it subscripts the monomial object itself
      (`t[2*j]`), which monomial classes do not support, so every monomial with a
      pair raises `TypeError`. */
  function MonomialImageAsWritten(m: Morphism, t: Sparse): (r: Result<PolynomialData>)
    ensures r.Success? <==> |t| == 0
    ensures r.Failure? ==> r.error == TypeError
  {
    if |t| == 0 then Success(m.codomain.one) else Failure(TypeError)
  }

  // ------------------------------------------------------------ the polynomial rule

  ghost predicate TermsMappable(d: Terms, n: nat) {
    forall i :: 0 <= i < |d| ==> NonNegative(d[i].key) && IndicesBelow(d[i].key, n)
  }

  /** The image of Σ c·t: zero plus φ(c)·image(t) for each term, in order. */
  function ApplyTo(m: Morphism, d: Terms): PolynomialData
    requires TermsMappable(d, |m.images|)
    decreases |d|
  {
    if |d| == 0 then m.codomain.zero
    else
      var last := d[|d| - 1];
      SumOf(ApplyTo(m, d[..|d| - 1]),
            Scaled(MonoImage(m.images, last.key, m.codomain.baseRing), m.coefficients.act(last.val)))
  }

  lemma SumEquals(a: PolynomialData, a': PolynomialData, b: PolynomialData, b': PolynomialData)
    requires Valid(a) && Valid(a') && Valid(b) && Valid(b')
    requires Equals(a, a') && Equals(b, b')
    ensures Equals(SumOf(a, b), SumOf(a', b'))
  {
    EqualsIff(a, a');
    EqualsIff(b, b');
    SumFacts(a, b);
    SumFacts(a', b');
    EqualsIff(SumOf(a, b), SumOf(a', b'));
  }

  lemma ScaledEquals(a: PolynomialData, a': PolynomialData, s: int)
    requires Valid(a) && Valid(a') && Equals(a, a')
    ensures Valid(Scaled(a, s)) && Equals(Scaled(a, s), Scaled(a', s))
  {
    EqualsIff(a, a');
    ScaledFacts(a, s);
    ScaledFacts(a', s);
    EqualsIff(Scaled(a, s), Scaled(a', s));
  }

  lemma {:induction false} ApplyToValid(m: Morphism, d: Terms)
    requires MorphismValid(m) && TermsMappable(d, |m.images|)
    ensures Valid(ApplyTo(m, d)) && ApplyTo(m, d).baseRing == m.codomain.baseRing
    decreases |d|
  {
    if |d| > 0 {
      var last := d[|d| - 1];
      var img := MonoImage(m.images, last.key, m.codomain.baseRing);
      ApplyToValid(m, d[..|d| - 1]);
      MonoImageValid(m.images, last.key, m.codomain.baseRing);
      ScaledFacts(img, m.coefficients.act(last.val));
      SumFacts(ApplyTo(m, d[..|d| - 1]), Scaled(img, m.coefficients.act(last.val)));
    }
  }

  /** One iteration of the polynomial loop: from the image of d[..i] to that of d[..i+1]. */
  lemma ApplyStep(m: Morphism, d: Terms, i: nat, x: PolynomialData, img: PolynomialData)
    requires MorphismValid(m) && i < |d| && TermsMappable(d[..i], |m.images|)
    requires NonNegative(d[i].key) && IndicesBelow(d[i].key, |m.images|)
    requires Valid(x) && Equals(x, ApplyTo(m, d[..i]))
    requires Valid(img) && Equals(img, MonoImage(m.images, d[i].key, m.codomain.baseRing))
    ensures TermsMappable(d[..i + 1], |m.images|)
    ensures Valid(Scaled(img, m.coefficients.act(d[i].val)))
    ensures Valid(SumOf(x, Scaled(img, m.coefficients.act(d[i].val))))
    ensures Equals(SumOf(x, Scaled(img, m.coefficients.act(d[i].val))), ApplyTo(m, d[..i + 1]))
  {
    var s := d[..i + 1];
    assert s[..|s| - 1] == d[..i] && s[|s| - 1] == d[i];
    forall k | 0 <= k < |s|
      ensures NonNegative(s[k].key) && IndicesBelow(s[k].key, |m.images|)
    {
      if k < i {
        assert s[k] == d[..i][k];
      }
    }
    var c := m.coefficients.act(d[i].val);
    var mi := MonoImage(m.images, d[i].key, m.codomain.baseRing);
    MonoImageValid(m.images, d[i].key, m.codomain.baseRing);
    ApplyToValid(m, d[..i]);
    ScaledEquals(img, mi, c);
    ScaledFacts(mi, c);
    SumEquals(x, ApplyTo(m, d[..i]), Scaled(img, c), Scaled(mi, c));
    SumFacts(x, Scaled(img, c));
  }

  /** `f ↦ Σ φ(c)·image(m)` over the terms of `f`, accumulated from the codomain's zero. */
  method Apply(m: Morphism, f: PolynomialData) returns (r: Result<PolynomialData>)
    requires MorphismValid(m) && Valid(f)
    ensures r.Failure? <==> !TermsMappable(f.terms, |m.images|)
    ensures r.Failure? ==> r.error == IndexError
    ensures r.Success? ==>
      Valid(r.value) && r.value.baseRing == m.codomain.baseRing &&
      Equals(r.value, ApplyTo(m, f.terms))
  {
    var x := m.codomain.zero;
    var d := f.terms;
    forall i | 0 <= i < |d|
      ensures NonNegative(d[i].key)
    {
      assert WellFormed(d[i].key);
    }
    for i := 0 to |d|
      invariant TermsMappable(d[..i], |m.images|)
      invariant Valid(x) && x.baseRing == m.codomain.baseRing && Equals(x, ApplyTo(m, d[..i]))
    {
      var img := MonomialImage(m, d[i].key);
      if img.Failure? {
        return Failure(IndexError);
      }
      ApplyStep(m, d, i, x, img.value);
      var term := Scale(img.value, m.coefficients.act(d[i].val));
      x := Add(x, term);
    }
    assert d[..|d|] == d;
    return Success(x);
  }

  // ------------------------------------------------------------ what the rule gives

  lemma ScaleOne(x: PolynomialData)
    requires Valid(x)
    ensures Valid(Scaled(x, 1)) && Equals(Scaled(x, 1), x)
  {
    ScaledFacts(x, 1);
    EqualsIff(Scaled(x, 1), x);
  }

  lemma SumZero(ring: RingId, x: PolynomialData)
    requires Valid(x)
    ensures Equals(SumOf(PolynomialData(ring, []), x), x)
  {
    SumFacts(PolynomialData(ring, []), x);
    EqualsIff(SumOf(PolynomialData(ring, []), x), x);
  }

  /** f^1 multiplied into 1 is f. */
  lemma FirstPower(f: PolynomialData)
    requires Valid(f)
    ensures Valid(ProductOf(One(f.baseRing), NFold(f, 1)))
    ensures Equals(ProductOf(One(f.baseRing), NFold(f, 1)), f)
  {
    var one := One(f.baseRing);
    var f1 := NFold(f, 1);
    assert Valid(one);
    assert Valid(f1) && Equals(f1, f) && Equals(ProductOf(one, f), f) by {
      NFoldValid(f, 1);
      OneIdentity(f);
    }
    assert Equals(ProductOf(one, f1), ProductOf(one, f)) by {
      ProductEquals(one, one, f1, f);
    }
    ProductValid(one, f1);
  }

  /** A generator goes to its image when φ(1) = 1: `f(x_i) == f_i`. */
  lemma ApplyGenerator(m: Morphism, i: nat)
    requires MorphismValid(m) && i < |m.images| && m.coefficients.act(1) == 1
    ensures TermsMappable(Generator(m.domain.baseRing, i).terms, |m.images|)
    ensures Equals(ApplyTo(m, Generator(m.domain.baseRing, i).terms), m.images[i])
  {
    var ring := m.codomain.baseRing;
    var d := Generator(m.domain.baseRing, i).terms;
    var t := [Pair(i, 1)];
    assert d[..|d| - 1] == [] && d[|d| - 1] == Item(t, 1);
    assert t[..|t| - 1] == [] && t[|t| - 1] == Pair(i, 1);
    var mi := MonoImage(m.images, t, ring);
    assert MonoImage(m.images, t[..|t| - 1], ring) == One(ring);
    assert mi == ProductOf(One(ring), NFold(m.images[i], 1));
    FirstPower(m.images[i]);
    ScaleOne(mi);
    SumZero(ring, Scaled(mi, 1));
  }

  /** The monomial x0·x1 goes to f0·f1. */
  lemma ImageOfProduct(images: seq<PolynomialData>, ring: RingId)
    requires |images| >= 2
    requires forall i :: 0 <= i < |images| ==> Valid(images[i]) && images[i].baseRing == ring
    ensures Equals(MonoImage(images, [Pair(0, 1), Pair(1, 1)], ring), ProductOf(images[0], images[1]))
  {
    var t := [Pair(0, 1), Pair(1, 1)];
    assert t[..1] == [Pair(0, 1)] && t[..1][..0] == [];
    var first := MonoImage(images, t[..1], ring);
    assert MonoImage(images, t[..1][..0], ring) == One(ring);
    assert first == ProductOf(One(ring), NFold(images[0], 1));
    FirstPower(images[0]);
    NFoldValid(images[1], 1);
    OneIdentity(images[1]);
    ProductEquals(first, images[0], NFold(images[1], 1), images[1]);
  }

  /** As written, the constructor rejects every morphism the checks admit. */
  lemma PrecisionCapRejects(domain: PolynomialRing, codomain: PolynomialRing, phi: CoefficientMorphism, action: seq<Polynomial>)
    requires Admissible(domain, codomain, phi, action)
    ensures NewMorphismAsWritten(domain, codomain, phi, action) == Failure(AttributeError)
  {
  }

  /** As written, the image of x0·x1 raises `TypeError`, though both indices have images. */
  lemma SubscriptRejects(m: Morphism)
    requires |m.images| >= 2
    ensures IndicesBelow([Pair(0, 1), Pair(1, 1)], |m.images|)
    ensures MonomialImageAsWritten(m, [Pair(0, 1), Pair(1, 1)]) == Failure(TypeError)
  {
  }
}
