/** Linear bookkeeping over lists of `(key, coefficient)` items.

    A term dictionary (or any list of terms that may repeat a key) denotes a
    formal sum.  `Coeff(d, k)` is the total coefficient that `d` gives the key
    `k`, and `Total(d, g)` is the value of the sum when each key `k` is sent to
    `g(k)`.  Two lists with the same coefficients have the same `Total` for
    every `g` (`Determinacy`); this is how the laws of the term-map arithmetic
    are carried from the lists the code builds to the sums they stand for. */
module Sums {
  import opened Dicts

  /** Σ v·g(k) over the items `(k, v)` of `d`. */
  function Total<K>(d: seq<Item<K, int>>, g: K -> int): int {
    if |d| == 0 then 0 else d[0].val * g(d[0].key) + Total(d[1..], g)
  }

  /** The sum of the coefficients that `d` attaches to `k`. */
  function Coeff<K(==)>(d: seq<Item<K, int>>, k: K): int {
    if |d| == 0 then 0 else (if d[0].key == k then d[0].val else 0) + Coeff(d[1..], k)
  }

  /** The indicator function of one key. */
  function Delta<K(==)>(k: K): K -> int {
    x => if x == k then 1 else 0
  }

  ghost predicate SameCoeffs<K(!new)>(a: seq<Item<K, int>>, b: seq<Item<K, int>>) {
    forall k :: Coeff(a, k) == Coeff(b, k)
  }

  lemma {:induction false} TotalAppend<K>(a: seq<Item<K, int>>, b: seq<Item<K, int>>, g: K -> int)
    ensures Total(a + b, g) == Total(a, g) + Total(b, g)
  {
    if |a| > 0 {
      assert (a + b)[1..] == a[1..] + b;
      TotalAppend(a[1..], b, g);
    } else {
      assert a + b == b;
    }
  }

  lemma {:induction false} CoeffAppend<K>(a: seq<Item<K, int>>, b: seq<Item<K, int>>, k: K)
    ensures Coeff(a + b, k) == Coeff(a, k) + Coeff(b, k)
  {
    if |a| > 0 {
      assert (a + b)[1..] == a[1..] + b;
      CoeffAppend(a[1..], b, k);
    } else {
      assert a + b == b;
    }
  }

  lemma {:induction false} CoeffIsTotal<K>(d: seq<Item<K, int>>, k: K)
    ensures Coeff(d, k) == Total(d, Delta(k))
  {
    if |d| > 0 {
      CoeffIsTotal(d[1..], k);
    }
  }

  /** `Total` only looks at `g` on the keys that occur. */
  lemma {:induction false} TotalExt<K>(d: seq<Item<K, int>>, g: K -> int, h: K -> int)
    requires forall i :: 0 <= i < |d| ==> g(d[i].key) == h(d[i].key)
    ensures Total(d, g) == Total(d, h)
  {
    if |d| > 0 {
      TotalExt(d[1..], g, h);
    }
  }

  /** A weight that is pointwise `c` times another gives `c` times the total. */
  lemma {:induction false} TotalScale<K>(d: seq<Item<K, int>>, g: K -> int, h: K -> int, c: int)
    requires forall i :: 0 <= i < |d| ==> h(d[i].key) == c * g(d[i].key)
    ensures Total(d, h) == c * Total(d, g)
  {
    if |d| > 0 {
      TotalScale(d[1..], g, h, c);
      assert d[0].val * h(d[0].key) == c * (d[0].val * g(d[0].key));
    }
  }

  lemma {:induction false} TotalPlus<K>(d: seq<Item<K, int>>, g: K -> int, h: K -> int)
    ensures Total(d, x => g(x) + h(x)) == Total(d, g) + Total(d, h)
  {
    if |d| > 0 {
      TotalPlus(d[1..], g, h);
      assert d[0].val * (g(d[0].key) + h(d[0].key)) == d[0].val * g(d[0].key) + d[0].val * h(d[0].key);
    }
  }

  /** The items of `d` whose key is not `k`, in order. */
  function Without<K(==)>(d: seq<Item<K, int>>, k: K): (r: seq<Item<K, int>>)
    ensures |r| <= |d|
    ensures forall i :: 0 <= i < |r| ==> r[i].key != k
  {
    if |d| == 0 then []
    else if d[0].key == k then Without(d[1..], k)
    else [d[0]] + Without(d[1..], k)
  }

  lemma {:induction false} WithoutFacts<K>(d: seq<Item<K, int>>, k: K, g: K -> int)
    ensures Total(d, g) == Coeff(d, k) * g(k) + Total(Without(d, k), g)
    ensures forall j :: Coeff(Without(d, k), j) == if j == k then 0 else Coeff(d, j)
  {
    if |d| > 0 {
      WithoutFacts(d[1..], k, g);
      if d[0].key == k {
        assert d[0].val * g(k) + Coeff(d[1..], k) * g(k) == (d[0].val + Coeff(d[1..], k)) * g(k);
      }
    }
  }

  /** A formal sum is determined by its coefficients. */
  lemma Determinacy<K(!new)>(a: seq<Item<K, int>>, b: seq<Item<K, int>>, g: K -> int)
    requires SameCoeffs(a, b)
    ensures Total(a, g) == Total(b, g)
    decreases |a| + |b|
  {
    if |a| > 0 || |b| > 0 {
      var k := if |a| > 0 then a[0].key else b[0].key;
      WithoutFacts(a, k, g);
      WithoutFacts(b, k, g);
      var a', b' := Without(a, k), Without(b, k);
      assert |a| > 0 ==> |a'| < |a| by {
        if |a| > 0 {
          assert a' == Without(a[1..], k);
        }
      }
      assert |a| == 0 ==> |b'| < |b| by {
        if |a| == 0 {
          assert b' == Without(b[1..], k);
        }
      }
      Determinacy(a', b', g);
    } else {
      assert a == [] && b == [];
    }
  }

  /** In a dictionary, the coefficient of a key is its stored value, or 0. */
  lemma {:induction false} CoeffOfDict<K>(d: seq<Item<K, int>>, k: K)
    requires DistinctKeys(d)
    ensures Coeff(d, k) == if Has(d, k) then d[Find(d, k)].val else 0
    ensures Coeff(d, k) == Get(d, k, 0)
  {
    if |d| > 0 {
      CoeffOfDict(d[1..], k);
      if d[0].key == k {
        assert forall i :: 0 <= i < |d[1..]| ==> d[1..][i].key != k;
        HasIff(d[1..], k);
      }
    }
  }

  /** `d[k] += c`, with a missing key counting as 0; this is what the code's
      `try: d[k] += c` / `except KeyError: d[k] = c` does. */
  function Acc<K(==)>(d: seq<Item<K, int>>, k: K, c: int): seq<Item<K, int>> {
    Put(d, k, Get(d, k, 0) + c)
  }

  /** Accumulate the items of `l` into `d`, in order. */
  function AccAll<K(==)>(d: seq<Item<K, int>>, l: seq<Item<K, int>>): seq<Item<K, int>>
    decreases |l|
  {
    if |l| == 0 then d else AccAll(Acc(d, l[0].key, l[0].val), l[1..])
  }

  lemma AccFacts<K>(d: seq<Item<K, int>>, k: K, c: int)
    requires DistinctKeys(d)
    ensures DistinctKeys(Acc(d, k, c))
    ensures forall j :: Coeff(Acc(d, k, c), j) == Coeff(d, j) + (if j == k then c else 0)
    ensures forall j :: Has(Acc(d, k, c), j) <==> j == k || Has(d, j)
  {
    PutFacts(d, k, Get(d, k, 0) + c);
    forall j
      ensures Coeff(Acc(d, k, c), j) == Coeff(d, j) + (if j == k then c else 0)
    {
      CoeffOfDict(d, j);
      CoeffOfDict(Acc(d, k, c), j);
    }
  }

  /** Accumulating keeps a dictionary and adds the coefficients of `l`. */
  lemma {:induction false} AccAllFacts<K>(d: seq<Item<K, int>>, l: seq<Item<K, int>>)
    requires DistinctKeys(d)
    ensures DistinctKeys(AccAll(d, l))
    ensures forall j :: Coeff(AccAll(d, l), j) == Coeff(d, j) + Coeff(l, j)
    ensures forall j :: Has(AccAll(d, l), j) <==> Has(d, j) || exists i :: 0 <= i < |l| && l[i].key == j
    decreases |l|
  {
    if |l| > 0 {
      AccFacts(d, l[0].key, l[0].val);
      AccAllFacts(Acc(d, l[0].key, l[0].val), l[1..]);
      forall j
        ensures Has(AccAll(d, l), j) <==> Has(d, j) || exists i :: 0 <= i < |l| && l[i].key == j
      {
        if exists i :: 0 <= i < |l| && l[i].key == j {
          var i :| 0 <= i < |l| && l[i].key == j;
          if i > 0 {
            assert l[1..][i - 1].key == j;
          }
        }
        if exists i :: 0 <= i < |l[1..]| && l[1..][i].key == j {
          var i :| 0 <= i < |l[1..]| && l[1..][i].key == j;
          assert l[i + 1].key == j;
        }
      }
    }
  }

  /** The items of `d` whose coefficient is not zero, in order. */
  function NonZero<K(!new)>(d: seq<Item<K, int>>): (r: seq<Item<K, int>>)
  {
    if |d| == 0 then [] else if d[0].val == 0 then NonZero(d[1..]) else [d[0]] + NonZero(d[1..])
  }

  /** Dropping zero coefficients changes no coefficient and keeps a dictionary. */
  lemma {:induction false} NonZeroFacts<K(!new)>(d: seq<Item<K, int>>)
    ensures forall it :: it in NonZero(d) <==> it in d && it.val != 0
    ensures forall k :: Coeff(NonZero(d), k) == Coeff(d, k)
    ensures DistinctKeys(d) ==> DistinctKeys(NonZero(d))
  {
    if |d| > 0 {
      NonZeroFacts(d[1..]);
      assert d == [d[0]] + d[1..];
      if DistinctKeys(d) {
        assert DistinctKeys(d[1..]);
        var r := NonZero(d);
        if d[0].val != 0 {
          forall i, j | 0 <= i < j < |r|
            ensures r[i].key != r[j].key
          {
            if i == 0 {
              assert r[j] == NonZero(d[1..])[j - 1];
              assert r[j] in d[1..];
            }
          }
        }
      }
    }
  }

  /** The products of the item `x` with every item of `b` that `keep` admits. */
  function Row<K>(x: Item<K, int>, b: seq<Item<K, int>>, op: (K, K) -> K, keep: (K, K) -> bool): seq<Item<K, int>> {
    if |b| == 0 then []
    else if keep(x.key, b[0].key) then [Item(op(x.key, b[0].key), x.val * b[0].val)] + Row(x, b[1..], op, keep)
    else Row(x, b[1..], op, keep)
  }

  /** All admitted pairwise products, row by row: the item list that the
      code's nested `for` loops feed into the result dictionary. */
  function Conv<K>(a: seq<Item<K, int>>, b: seq<Item<K, int>>, op: (K, K) -> K, keep: (K, K) -> bool): seq<Item<K, int>> {
    if |a| == 0 then [] else Row(a[0], b, op, keep) + Conv(a[1..], b, op, keep)
  }

  /** The value of one row: x·Σ_y [keep] y·g(op(x, y)). */
  function RowValue<K>(b: seq<Item<K, int>>, op: (K, K) -> K, keep: (K, K) -> bool, g: K -> int): K -> int {
    x => Total(b, y => if keep(x, y) then g(op(x, y)) else 0)
  }

  /** A row whose every entry is `c` times the weight of the entry it came from. */
  lemma RowScale<K>(x: K, b: seq<Item<K, int>>, op: (K, K) -> K, keep: (K, K) -> bool, g: K -> int, c: int)
    requires forall j :: 0 <= j < |b| ==> (if keep(x, b[j].key) then g(op(x, b[j].key)) else 0) == c * g(b[j].key)
    ensures RowValue(b, op, keep, g)(x) == c * Total(b, g)
  {
    TotalScale(b, g, y => if keep(x, y) then g(op(x, y)) else 0, c);
  }

  lemma {:induction false} TotalRow<K>(x: Item<K, int>, b: seq<Item<K, int>>, op: (K, K) -> K, keep: (K, K) -> bool, g: K -> int)
    ensures Total(Row(x, b, op, keep), g) == x.val * RowValue(b, op, keep, g)(x.key)
  {
    if |b| > 0 {
      TotalRow(x, b[1..], op, keep, g);
      var h := y => if keep(x.key, y) then g(op(x.key, y)) else 0;
      assert RowValue(b, op, keep, g)(x.key) == b[0].val * h(b[0].key) + Total(b[1..], h);
      if keep(x.key, b[0].key) {
        assert x.val * b[0].val * g(op(x.key, b[0].key)) == x.val * (b[0].val * h(b[0].key));
      }
    }
  }

  /** Expanding a product: Σ over the pairs of the value of their product. */
  lemma {:induction false} TotalConv<K>(a: seq<Item<K, int>>, b: seq<Item<K, int>>, op: (K, K) -> K, keep: (K, K) -> bool, g: K -> int)
    ensures Total(Conv(a, b, op, keep), g) == Total(a, RowValue(b, op, keep, g))
  {
    if |a| > 0 {
      TotalAppend(Row(a[0], b, op, keep), Conv(a[1..], b, op, keep), g);
      TotalRow(a[0], b, op, keep, g);
      TotalConv(a[1..], b, op, keep, g);
    }
  }

  /** The coefficient of `k` in a product list: Σ_{op(x,y) = k} x·y over the admitted pairs. */
  lemma CoeffConv<K>(a: seq<Item<K, int>>, b: seq<Item<K, int>>, op: (K, K) -> K, keep: (K, K) -> bool, k: K)
    ensures Coeff(Conv(a, b, op, keep), k) == Total(a, RowValue(b, op, keep, Delta(k)))
  {
    CoeffIsTotal(Conv(a, b, op, keep), k);
    TotalConv(a, b, op, keep, Delta(k));
  }

  /** Lists with the same coefficients have products with the same coefficients. */
  lemma ConvCongruence<K(!new)>(a: seq<Item<K, int>>, a': seq<Item<K, int>>, b: seq<Item<K, int>>, b': seq<Item<K, int>>, op: (K, K) -> K, keep: (K, K) -> bool)
    requires SameCoeffs(a, a') && SameCoeffs(b, b')
    ensures SameCoeffs(Conv(a, b, op, keep), Conv(a', b', op, keep))
  {
    forall k
      ensures Coeff(Conv(a, b, op, keep), k) == Coeff(Conv(a', b', op, keep), k)
    {
      CoeffConv(a, b, op, keep, k);
      CoeffConv(a', b', op, keep, k);
      forall i | 0 <= i < |a|
        ensures RowValue(b, op, keep, Delta(k))(a[i].key) == RowValue(b', op, keep, Delta(k))(a[i].key)
      {
        var x := a[i].key;
        Determinacy(b, b', y => if keep(x, y) then Delta(k)(op(x, y)) else 0);
      }
      TotalExt(a, RowValue(b, op, keep, Delta(k)), RowValue(b', op, keep, Delta(k)));
      Determinacy(a, a', RowValue(b', op, keep, Delta(k)));
    }
  }
  lemma {:induction false} TotalOfZero<K>(d: seq<Item<K, int>>, g: K -> int)
    requires forall i :: 0 <= i < |d| ==> g(d[i].key) == 0
    ensures Total(d, g) == 0
  {
    if |d| > 0 {
      TotalOfZero(d[1..], g);
    }
  }

  /** The conditions on one triple of keys under which both bracketings of a
      triple product agree: `op` associates and `keep` admits the same triples. */
  ghost predicate Associates<K>(op: (K, K) -> K, keep: (K, K) -> bool, x: K, y: K, z: K) {
    op(op(x, y), z) == op(x, op(y, z)) &&
    ((keep(x, y) && keep(op(x, y), z)) <==> (keep(y, z) && keep(x, op(y, z))))
  }

  ghost predicate AssociatesOn<K>(a: seq<Item<K, int>>, b: seq<Item<K, int>>, c: seq<Item<K, int>>, op: (K, K) -> K, keep: (K, K) -> bool) {
    forall i, j, l :: 0 <= i < |a| && 0 <= j < |b| && 0 <= l < |c| ==> Associates(op, keep, a[i].key, b[j].key, c[l].key)
  }

  /** One pair `(x, y)` of the triple sum, summed over the third factor. */
  lemma AssocPair<K>(x: K, y: K, c: seq<Item<K, int>>, op: (K, K) -> K, keep: (K, K) -> bool, g: K -> int)
    requires forall l :: 0 <= l < |c| ==> Associates(op, keep, x, y, c[l].key)
    ensures (if keep(x, y) then RowValue(c, op, keep, g)(op(x, y)) else 0)
         == RowValue(c, op, keep, y' => if keep(x, y') then g(op(x, y')) else 0)(y)
  {
    var h := y' => if keep(x, y') then g(op(x, y')) else 0;
    var right := z => if keep(y, z) then h(op(y, z)) else 0;
    if keep(x, y) {
      TotalExt(c, z => if keep(op(x, y), z) then g(op(op(x, y), z)) else 0, right);
    } else {
      TotalOfZero(c, right);
    }
  }

  /** The two bracketings of a triple product have the same coefficients. */
  lemma ConvAssoc<K(!new)>(a: seq<Item<K, int>>, b: seq<Item<K, int>>, c: seq<Item<K, int>>, op: (K, K) -> K, keep: (K, K) -> bool)
    requires AssociatesOn(a, b, c, op, keep)
    ensures SameCoeffs(Conv(Conv(a, b, op, keep), c, op, keep), Conv(a, Conv(b, c, op, keep), op, keep))
  {
    forall k
      ensures Coeff(Conv(Conv(a, b, op, keep), c, op, keep), k) == Coeff(Conv(a, Conv(b, c, op, keep), op, keep), k)
    {
      var g := Delta(k);
      CoeffConv(Conv(a, b, op, keep), c, op, keep, k);
      TotalConv(a, b, op, keep, RowValue(c, op, keep, g));
      CoeffConv(a, Conv(b, c, op, keep), op, keep, k);
      forall i | 0 <= i < |a|
        ensures RowValue(b, op, keep, RowValue(c, op, keep, g))(a[i].key)
             == RowValue(Conv(b, c, op, keep), op, keep, g)(a[i].key)
      {
        var x := a[i].key;
        var h := y' => if keep(x, y') then g(op(x, y')) else 0;
        TotalConv(b, c, op, keep, h);
        forall j | 0 <= j < |b|
          ensures (if keep(x, b[j].key) then RowValue(c, op, keep, g)(op(x, b[j].key)) else 0)
               == RowValue(c, op, keep, h)(b[j].key)
        {
          AssocPair(x, b[j].key, c, op, keep, g);
        }
        TotalExt(b, y => if keep(x, y) then RowValue(c, op, keep, g)(op(x, y)) else 0, RowValue(c, op, keep, h));
      }
      TotalExt(a, RowValue(b, op, keep, RowValue(c, op, keep, g)), RowValue(Conv(b, c, op, keep), op, keep, g));
    }
  }

  // ------------------------------------------------------------ products of concatenations

  lemma {:induction false} RowAppend<K>(x: Item<K, int>, b1: seq<Item<K, int>>, b2: seq<Item<K, int>>, op: (K, K) -> K, keep: (K, K) -> bool)
    ensures Row(x, b1 + b2, op, keep) == Row(x, b1, op, keep) + Row(x, b2, op, keep)
  {
    if |b1| == 0 {
      assert b1 + b2 == b2;
    } else {
      assert (b1 + b2)[1..] == b1[1..] + b2;
      RowAppend(x, b1[1..], b2, op, keep);
    }
  }

  lemma {:induction false} ConvAppendLeft<K>(a1: seq<Item<K, int>>, a2: seq<Item<K, int>>, b: seq<Item<K, int>>, op: (K, K) -> K, keep: (K, K) -> bool)
    ensures Conv(a1 + a2, b, op, keep) == Conv(a1, b, op, keep) + Conv(a2, b, op, keep)
  {
    if |a1| == 0 {
      assert a1 + a2 == a2;
    } else {
      assert (a1 + a2)[1..] == a1[1..] + a2;
      ConvAppendLeft(a1[1..], a2, b, op, keep);
    }
  }

  lemma {:induction false} ConvAppendRight<K>(a: seq<Item<K, int>>, b1: seq<Item<K, int>>, b2: seq<Item<K, int>>, op: (K, K) -> K, keep: (K, K) -> bool, k: K)
    ensures Coeff(Conv(a, b1 + b2, op, keep), k) == Coeff(Conv(a, b1, op, keep), k) + Coeff(Conv(a, b2, op, keep), k)
  {
    if |a| > 0 {
      ConvAppendRight(a[1..], b1, b2, op, keep, k);
      RowAppend(a[0], b1, b2, op, keep);
      CoeffAppend(Row(a[0], b1 + b2, op, keep), Conv(a[1..], b1 + b2, op, keep), k);
      CoeffAppend(Row(a[0], b1, op, keep), Row(a[0], b2, op, keep), k);
      CoeffAppend(Row(a[0], b1, op, keep), Conv(a[1..], b1, op, keep), k);
      CoeffAppend(Row(a[0], b2, op, keep), Conv(a[1..], b2, op, keep), k);
    }
  }
}

