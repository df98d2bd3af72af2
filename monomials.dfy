/** Monomial encodings: `SparseMonomialData` and `PackedMonomialData`.

    A sparse monomial is the flat tuple `(i0, e0, i1, e1, ...)` of variable
    indices and exponents; it is modelled as the sequence of its pairs
    `(i0, e0), (i1, e1), ...`, so that entries `2k` and `2k+1` of the tuple are
    pair `k`.  The empty sequence is the monomial 1.  A packed monomial is the
    single integer `Σ e·B^i` with `B = PACKING_BOUND`.  Dense exponent vectors
    `(e0, e1, ...)` convert to both. */
module Monomials {

  /** `PACKING_BOUND = 2**16`: every exponent of a packed monomial must stay below it. */
  const PACKING_BOUND: int := 0x1_0000

  datatype Pair = Pair(index: int, exp: int)

  /** A sparse tuple, pair by pair. */
  type Sparse = seq<Pair>

  /** Every variable index of `t` is at least `c`. */
  ghost predicate IndicesAtLeast(t: Sparse, c: int) {
    forall k :: 0 <= k < |t| ==> c <= t[k].index
  }

  /** The shape the code assumes of a sparse tuple: nonnegative, strictly
      increasing variable indices, each with a positive exponent. */
  ghost predicate WellFormed(t: Sparse) {
    IndicesAtLeast(t, 0) &&
    (forall k :: 0 <= k < |t| ==> 0 < t[k].exp) &&
    (forall k, l :: 0 <= k < l < |t| ==> t[k].index < t[l].index)
  }

  /** Every exponent of `t` is below `PACKING_BOUND`: packing does not overflow. */
  ghost predicate ExponentsFit(t: Sparse) {
    forall k :: 0 <= k < |t| ==> t[k].exp < PACKING_BOUND
  }

  ghost predicate Packable(t: Sparse) {
    WellFormed(t) && ExponentsFit(t)
  }

  /** The exponent of variable `i` in `t`, a missing variable counting as 0. */
  function ExpAt(t: Sparse, i: int): int {
    if |t| == 0 then 0 else (if t[0].index == i then t[0].exp else 0) + ExpAt(t[1..], i)
  }

  /** The total degree Σ e of `t`. */
  function TotalDegree(t: Sparse): int {
    if |t| == 0 then 0 else t[0].exp + TotalDegree(t[1..])
  }

  // ------------------------------------------------------------ sparse product

  /** `SparseMonomialData.__mul__` as a function: the two-pointer merge of two
      sparse tuples.  Equal indices have their exponents added, and the pair
      is dropped when the sum is 0. */
  function Merge(a: Sparse, b: Sparse): Sparse
    decreases |a| + |b|
  {
    if |a| == 0 then b
    else if |b| == 0 then a
    else if a[0].index < b[0].index then [a[0]] + Merge(a[1..], b)
    else if a[0].index == b[0].index then
      (if a[0].exp + b[0].exp != 0 then [Pair(a[0].index, a[0].exp + b[0].exp)] else []) + Merge(a[1..], b[1..])
    else [b[0]] + Merge(a, b[1..])
  }

  lemma AppendAssoc(x: Sparse, y: Sparse, z: Sparse)
    ensures (x + y) + z == x + (y + z)
  {
  }

  ghost predicate MergeInvariant(a: Sparse, b: Sparse, si: nat, oi: nat, done: Sparse) {
    si <= |a| && oi <= |b| && done + Merge(a[si..], b[oi..]) == Merge(a, b)
  }

  // One step of the merge loop for each of its branches: what is appended to
  // `done`, and where both positions move, keeps the invariant.

  lemma AdvanceLeft(a: Sparse, b: Sparse, si: nat, oi: nat, done: Sparse)
    requires MergeInvariant(a, b, si, oi, done) && si < |a| && oi < |b| && a[si].index < b[oi].index
    ensures MergeInvariant(a, b, si + 1, oi, done + [a[si]])
  {
    assert a[si..][1..] == a[si + 1..];
    AppendAssoc(done, [a[si]], Merge(a[si + 1..], b[oi..]));
  }

  lemma AdvanceBoth(a: Sparse, b: Sparse, si: nat, oi: nat, done: Sparse)
    requires MergeInvariant(a, b, si, oi, done) && si < |a| && oi < |b| && a[si].index == b[oi].index
    ensures a[si].exp + b[oi].exp != 0 ==>
      MergeInvariant(a, b, si + 1, oi + 1, done + [Pair(a[si].index, a[si].exp + b[oi].exp)])
    ensures a[si].exp + b[oi].exp == 0 ==> MergeInvariant(a, b, si + 1, oi + 1, done)
  {
    assert a[si..][1..] == a[si + 1..] && b[oi..][1..] == b[oi + 1..];
    var h: Sparse := if a[si].exp + b[oi].exp != 0 then [Pair(a[si].index, a[si].exp + b[oi].exp)] else [];
    AppendAssoc(done, h, Merge(a[si + 1..], b[oi + 1..]));
    assert done + h == if h == [] then done else done + [Pair(a[si].index, a[si].exp + b[oi].exp)];
  }

  lemma AdvanceRight(a: Sparse, b: Sparse, si: nat, oi: nat, done: Sparse)
    requires MergeInvariant(a, b, si, oi, done) && si < |a| && oi < |b| && a[si].index > b[oi].index
    ensures MergeInvariant(a, b, si, oi + 1, done + [b[oi]])
  {
    assert b[oi..][1..] == b[oi + 1..];
    AppendAssoc(done, [b[oi]], Merge(a[si..], b[oi + 1..]));
  }

  /** `SparseMonomialData.__mul__`: the loop of the code, which appends to
      `new_list` while it walks both tuples. */
  method SparseMul(a: Sparse, b: Sparse) returns (r: Sparse)
    ensures r == Merge(a, b)
  {
    var newList: Sparse := [];
    var si, oi := 0, 0;
    while si < |a| && oi < |b|
      invariant MergeInvariant(a, b, si, oi, newList)
      decreases |a| - si + |b| - oi
    {
      if a[si].index < b[oi].index {
        AdvanceLeft(a, b, si, oi, newList);
        newList := newList + [a[si]];
        si := si + 1;
      } else if a[si].index == b[oi].index {
        AdvanceBoth(a, b, si, oi, newList);
        var x := a[si].exp + b[oi].exp;
        if x != 0 {
          newList := newList + [Pair(a[si].index, x)];
        }
        si := si + 1;
        oi := oi + 1;
      } else {
        AdvanceRight(a, b, si, oi, newList);
        newList := newList + [b[oi]];
        oi := oi + 1;
      }
    }
    while si < |a|
      invariant 0 <= si <= |a| && (si == |a| || oi == |b|)
      invariant newList + Merge(a[si..], b[oi..]) == Merge(a, b)
      decreases |a| - si
    {
      assert a[si..] == [a[si]] + a[si + 1..];
      newList := newList + [a[si]];
      si := si + 1;
    }
    while oi < |b|
      invariant 0 <= oi <= |b| && si == |a|
      invariant newList + Merge(a[si..], b[oi..]) == Merge(a, b)
      decreases |b| - oi
    {
      assert b[oi..] == [b[oi]] + b[oi + 1..];
      newList := newList + [b[oi]];
      oi := oi + 1;
    }
    assert a[si..] == [] && b[oi..] == [];
    r := newList;
  }

  lemma {:induction false} ExpAtAppend(x: Sparse, y: Sparse, i: int)
    ensures ExpAt(x + y, i) == ExpAt(x, i) + ExpAt(y, i)
  {
    if |x| > 0 {
      assert (x + y)[1..] == x[1..] + y;
      ExpAtAppend(x[1..], y, i);
    } else {
      assert x + y == y;
    }
  }

  lemma {:induction false} TotalDegreeAppend(x: Sparse, y: Sparse)
    ensures TotalDegree(x + y) == TotalDegree(x) + TotalDegree(y)
  {
    if |x| > 0 {
      assert (x + y)[1..] == x[1..] + y;
      TotalDegreeAppend(x[1..], y);
    } else {
      assert x + y == y;
    }
  }

  /** The product adds exponents variable by variable (absent counts as 0). */
  lemma {:induction false} MergeExpAt(a: Sparse, b: Sparse, i: int)
    ensures ExpAt(Merge(a, b), i) == ExpAt(a, i) + ExpAt(b, i)
    decreases |a| + |b|
  {
    if |a| > 0 && |b| > 0 {
      if a[0].index < b[0].index {
        MergeExpAt(a[1..], b, i);
        ExpAtAppend([a[0]], Merge(a[1..], b), i);
      } else if a[0].index == b[0].index {
        MergeExpAt(a[1..], b[1..], i);
        var head: Sparse := if a[0].exp + b[0].exp != 0 then [Pair(a[0].index, a[0].exp + b[0].exp)] else [];
        ExpAtAppend(head, Merge(a[1..], b[1..]), i);
      } else {
        MergeExpAt(a, b[1..], i);
        ExpAtAppend([b[0]], Merge(a, b[1..]), i);
      }
    }
  }

  /** The product adds total degrees. */
  lemma {:induction false} MergeTotalDegree(a: Sparse, b: Sparse)
    ensures TotalDegree(Merge(a, b)) == TotalDegree(a) + TotalDegree(b)
    decreases |a| + |b|
  {
    if |a| > 0 && |b| > 0 {
      if a[0].index < b[0].index {
        MergeTotalDegree(a[1..], b);
        TotalDegreeAppend([a[0]], Merge(a[1..], b));
      } else if a[0].index == b[0].index {
        MergeTotalDegree(a[1..], b[1..]);
        var head: Sparse := if a[0].exp + b[0].exp != 0 then [Pair(a[0].index, a[0].exp + b[0].exp)] else [];
        TotalDegreeAppend(head, Merge(a[1..], b[1..]));
      } else {
        MergeTotalDegree(a, b[1..]);
        TotalDegreeAppend([b[0]], Merge(a, b[1..]));
      }
    }
  }

  /** Every index of the product is an index of a factor, so lower bounds carry over. */
  lemma {:induction false} MergeIndicesAtLeast(a: Sparse, b: Sparse, c: int)
    requires IndicesAtLeast(a, c) && IndicesAtLeast(b, c)
    ensures IndicesAtLeast(Merge(a, b), c)
    decreases |a| + |b|
  {
    if |a| > 0 && |b| > 0 {
      if a[0].index < b[0].index {
        MergeIndicesAtLeast(a[1..], b, c);
      } else if a[0].index == b[0].index {
        MergeIndicesAtLeast(a[1..], b[1..], c);
      } else {
        MergeIndicesAtLeast(a, b[1..], c);
      }
    }
  }

  lemma ConsWellFormed(p: Pair, t: Sparse)
    requires 0 <= p.index && 0 < p.exp && WellFormed(t) && IndicesAtLeast(t, p.index + 1)
    ensures WellFormed([p] + t)
  {
    var r := [p] + t;
    assert forall k :: 0 < k < |r| ==> r[k] == t[k - 1];
  }

  /** Given well-formed factors, the product is well formed. */
  lemma {:induction false} MergeWellFormed(a: Sparse, b: Sparse)
    requires WellFormed(a) && WellFormed(b)
    ensures WellFormed(Merge(a, b))
    decreases |a| + |b|
  {
    if |a| > 0 && |b| > 0 {
      if a[0].index < b[0].index {
        MergeWellFormed(a[1..], b);
        MergeIndicesAtLeast(a[1..], b, a[0].index + 1);
        ConsWellFormed(a[0], Merge(a[1..], b));
      } else if a[0].index == b[0].index {
        MergeWellFormed(a[1..], b[1..]);
        MergeIndicesAtLeast(a[1..], b[1..], a[0].index + 1);
        ConsWellFormed(Pair(a[0].index, a[0].exp + b[0].exp), Merge(a[1..], b[1..]));
      } else {
        MergeWellFormed(a, b[1..]);
        MergeIndicesAtLeast(a, b[1..], b[0].index + 1);
        ConsWellFormed(b[0], Merge(a, b[1..]));
      }
    }
  }

  /** Variables below every index of a well-formed tuple have exponent 0. */
  lemma {:induction false} ExpAtBelow(t: Sparse, i: int)
    requires WellFormed(t) && IndicesAtLeast(t, i + 1)
    ensures ExpAt(t, i) == 0
  {
    if |t| > 0 {
      ExpAtBelow(t[1..], i);
    }
  }

  lemma HeadExp(t: Sparse)
    requires WellFormed(t) && |t| > 0
    ensures ExpAt(t, t[0].index) == t[0].exp > 0
    ensures forall i :: i < t[0].index ==> ExpAt(t, i) == 0
  {
    ExpAtBelow(t[1..], t[0].index);
    forall i | i < t[0].index
      ensures ExpAt(t, i) == 0
    {
      ExpAtBelow(t, i);
    }
  }

  /** A well-formed tuple is determined by its exponents. */
  lemma {:induction false} Canonicity(a: Sparse, b: Sparse)
    requires WellFormed(a) && WellFormed(b)
    requires forall i :: ExpAt(a, i) == ExpAt(b, i)
    ensures a == b
  {
    if |a| > 0 && |b| > 0 {
      HeadExp(a);
      HeadExp(b);
      if a[0].index < b[0].index {
        assert false;
      } else if b[0].index < a[0].index {
        assert false;
      }
      forall i
        ensures ExpAt(a[1..], i) == ExpAt(b[1..], i)
      {
        assert ExpAt(a, i) == ExpAt(b, i);
      }
      Canonicity(a[1..], b[1..]);
      assert a == [a[0]] + a[1..] && b == [b[0]] + b[1..];
    } else if |a| > 0 {
      HeadExp(a);
      assert false;
    } else if |b| > 0 {
      HeadExp(b);
      assert false;
    }
  }

  /** The empty tuple `()` is the identity of the product, on both sides. */
  lemma MergeIdentity(a: Sparse)
    ensures Merge(a, []) == a && Merge([], a) == a
  {
  }

  /** The product of well-formed monomials is commutative. */
  lemma MergeComm(a: Sparse, b: Sparse)
    requires WellFormed(a) && WellFormed(b)
    ensures Merge(a, b) == Merge(b, a)
  {
    MergeWellFormed(a, b);
    MergeWellFormed(b, a);
    forall i
      ensures ExpAt(Merge(a, b), i) == ExpAt(Merge(b, a), i)
    {
      MergeExpAt(a, b, i);
      MergeExpAt(b, a, i);
    }
    Canonicity(Merge(a, b), Merge(b, a));
  }

  /** The product of well-formed monomials is associative. */
  lemma MergeAssoc(a: Sparse, b: Sparse, c: Sparse)
    requires WellFormed(a) && WellFormed(b) && WellFormed(c)
    ensures Merge(Merge(a, b), c) == Merge(a, Merge(b, c))
  {
    MergeWellFormed(a, b);
    MergeWellFormed(b, c);
    MergeWellFormed(Merge(a, b), c);
    MergeWellFormed(a, Merge(b, c));
    forall i
      ensures ExpAt(Merge(Merge(a, b), c), i) == ExpAt(Merge(a, Merge(b, c)), i)
    {
      MergeExpAt(a, b, i);
      MergeExpAt(b, c, i);
      MergeExpAt(Merge(a, b), c, i);
      MergeExpAt(a, Merge(b, c), i);
    }
    Canonicity(Merge(Merge(a, b), c), Merge(a, Merge(b, c)));
  }

  /** `(1,2,4,7) * (0,3,3,3,4,1) == (0,3,1,2,3,3,4,8)`. */
  lemma MergeExample()
    ensures Merge([Pair(1, 2), Pair(4, 7)], [Pair(0, 3), Pair(3, 3), Pair(4, 1)])
         == [Pair(0, 3), Pair(1, 2), Pair(3, 3), Pair(4, 8)]
  {
    var a: Sparse := [Pair(1, 2), Pair(4, 7)];
    var b: Sparse := [Pair(0, 3), Pair(3, 3), Pair(4, 1)];
    assert Merge(a[1..], b[2..]) == [Pair(4, 8)];
    assert Merge(a[1..], b[1..]) == [Pair(3, 3), Pair(4, 8)];
    assert Merge(a, b[1..]) == [Pair(1, 2), Pair(3, 3), Pair(4, 8)];
  }

  // ------------------------------------------------------------ packed weights

  function Pow(b: int, e: nat): int {
    if e == 0 then 1 else b * Pow(b, e - 1)
  }

  lemma {:induction false} PowPositive(b: int, e: nat)
    requires b > 0
    ensures Pow(b, e) > 0
  {
    if e > 0 {
      PowPositive(b, e - 1);
    }
  }

  /** Σ e·B^(i − c) over the pairs `(i, e)` of `t`. */
  function WeightFrom(t: Sparse, c: int): int
    requires IndicesAtLeast(t, c)
  {
    if |t| == 0 then 0 else t[0].exp * Pow(PACKING_BOUND, t[0].index - c) + WeightFrom(t[1..], c)
  }

  /** The packed weight Σ e·B^i of a sparse tuple. */
  function Weight(t: Sparse): int
    requires IndicesAtLeast(t, 0)
  {
    WeightFrom(t, 0)
  }

  /** `PackedMonomialData.from_sparse_tuple`: `x += t[2i+1] * B**t[2i]` over the pairs. */
  method PackSparse(t: Sparse) returns (x: int)
    requires IndicesAtLeast(t, 0)
    ensures x == Weight(t)
  {
    x := 0;
    for i := 0 to |t|
      invariant x + WeightFrom(t[i..], 0) == Weight(t)
    {
      assert t[i..][1..] == t[i + 1..];
      x := x + t[i].exp * Pow(PACKING_BOUND, t[i].index);
    }
  }

  /** The pairs `(c + j, r)` for the nonzero base-`B` digits `r` of `n`, lowest first. */
  function Digits(n: int, c: int): Sparse
    decreases n
  {
    if n <= 0 then []
    else (if n % PACKING_BOUND > 0 then [Pair(c, n % PACKING_BOUND)] else []) + Digits(n / PACKING_BOUND, c + 1)
  }

  /** `PackedMonomialData.degrees`, and `SparseMonomialData.from_packed_integer`,
      which runs the same loop: peel off base-`B` digits, keeping the nonzero ones. */
  method PackedDegrees(weight: int) returns (t: Sparse)
    ensures t == Digits(weight, 0)
  {
    var count := 0;
    var x: Sparse := [];
    var n := weight;
    while n > 0
      invariant x + Digits(n, count) == Digits(weight, 0)
      decreases n
    {
      var q, r := n / PACKING_BOUND, n % PACKING_BOUND;
      assert Digits(n, count) == (if r > 0 then [Pair(count, r)] else []) + Digits(q, count + 1);
      if r > 0 {
        AppendAssoc(x, [Pair(count, r)], Digits(q, count + 1));
        x := x + [Pair(count, r)];
      }
      n := q;
      count := count + 1;
    }
    t := x;
  }

  /** Σ v[j]·B^(c + j). */
  function DenseWeightFrom(v: seq<int>, c: nat): int {
    if |v| == 0 then 0 else v[0] * Pow(PACKING_BOUND, c) + DenseWeightFrom(v[1..], c + 1)
  }

  function DenseWeight(v: seq<int>): int {
    DenseWeightFrom(v, 0)
  }

  /** `PackedMonomialData.from_tuple`: `x += pwr * B**i` over the dense vector. */
  method PackDense(v: seq<int>) returns (x: int)
    ensures x == DenseWeight(v)
  {
    x := 0;
    for i := 0 to |v|
      invariant x + DenseWeightFrom(v[i..], i) == DenseWeight(v)
    {
      assert v[i..][1..] == v[i + 1..];
      x := x + v[i] * Pow(PACKING_BOUND, i);
    }
  }

  /** The pairs `(c + j, v[j])` for the nonzero entries of `v`. */
  function DenseToSparseFrom(v: seq<int>, c: nat): Sparse {
    if |v| == 0 then []
    else (if v[0] != 0 then [Pair(c, v[0])] else []) + DenseToSparseFrom(v[1..], c + 1)
  }

  function DenseToSparse(v: seq<int>): Sparse {
    DenseToSparseFrom(v, 0)
  }

  /** `SparseMonomialData.from_tuple`: extend by `(i, pwr)` for every nonzero `pwr`. */
  method SparseFromDense(v: seq<int>) returns (t: Sparse)
    ensures t == DenseToSparse(v)
  {
    t := [];
    for i := 0 to |v|
      invariant t + DenseToSparseFrom(v[i..], i) == DenseToSparse(v)
    {
      assert v[i..][1..] == v[i + 1..];
      if v[i] != 0 {
        AppendAssoc(t, [Pair(i, v[i])], DenseToSparseFrom(v[i + 1..], i + 1));
        t := t + [Pair(i, v[i])];
      }
    }
  }

  // ------------------------------------------------------------ packed laws

  lemma {:induction false} WeightFromAppend(x: Sparse, y: Sparse, c: int)
    requires IndicesAtLeast(x, c) && IndicesAtLeast(y, c)
    ensures IndicesAtLeast(x + y, c)
    ensures WeightFrom(x + y, c) == WeightFrom(x, c) + WeightFrom(y, c)
  {
    if |x| > 0 {
      assert (x + y)[1..] == x[1..] + y;
      WeightFromAppend(x[1..], y, c);
    } else {
      assert x + y == y;
    }
  }

  /** Raising the base index by one divides the weight by `B`. */
  lemma {:induction false} WeightShift(t: Sparse, c: int)
    requires IndicesAtLeast(t, c + 1)
    ensures WeightFrom(t, c) == PACKING_BOUND * WeightFrom(t, c + 1)
  {
    if |t| > 0 {
      WeightShift(t[1..], c);
      var e: nat := t[0].index - c - 1;
      assert Pow(PACKING_BOUND, e + 1) == PACKING_BOUND * Pow(PACKING_BOUND, e);
    }
  }

  lemma {:induction false} WeightNonNegative(t: Sparse, c: int)
    requires WellFormed(t) && IndicesAtLeast(t, c)
    ensures WeightFrom(t, c) >= 0
    ensures |t| > 0 ==> WeightFrom(t, c) > 0
  {
    if |t| > 0 {
      assert WellFormed(t[1..]);
      WeightNonNegative(t[1..], c);
      PowPositive(PACKING_BOUND, t[0].index - c);
      assert t[0].exp * Pow(PACKING_BOUND, t[0].index - c) > 0;
    }
  }

  lemma DivModPacking(q: int, r: int)
    requires 0 <= r < PACKING_BOUND
    ensures (q * PACKING_BOUND + r) / PACKING_BOUND == q
    ensures (q * PACKING_BOUND + r) % PACKING_BOUND == r
  {
  }

  /** Decoding inverts packing: the digits of the weight are the tuple. */
  lemma {:induction false} DigitsWeightFrom(t: Sparse, c: int)
    requires Packable(t) && IndicesAtLeast(t, c)
    ensures Digits(WeightFrom(t, c), c) == t
    decreases |t|, if |t| > 0 then t[0].index - c else 0
  {
    if |t| > 0 {
      var n := WeightFrom(t, c);
      WeightNonNegative(t, c);
      if t[0].index == c {
        assert WellFormed(t[1..]) && IndicesAtLeast(t[1..], c + 1);
        WeightShift(t[1..], c);
        var w := WeightFrom(t[1..], c + 1);
        assert n == w * PACKING_BOUND + t[0].exp;
        DivModPacking(w, t[0].exp);
        DigitsWeightFrom(t[1..], c + 1);
        assert t == [Pair(c, t[0].exp)] + t[1..];
      } else {
        WeightShift(t, c);
        var w := WeightFrom(t, c + 1);
        assert n == w * PACKING_BOUND + 0;
        DivModPacking(w, 0);
        DigitsWeightFrom(t, c + 1);
      }
    }
  }

  /** `from_sparse_tuple(t).degrees == t` for every packable tuple. */
  lemma PackedRoundTrip(t: Sparse)
    requires Packable(t)
    ensures Digits(Weight(t), 0) == t
  {
    DigitsWeightFrom(t, 0);
  }

  lemma DecodeWeight(t: Sparse, n: int)
    requires Packable(t) && n == Weight(t)
    ensures Digits(n, 0) == t
  {
    PackedRoundTrip(t);
  }

  /** Packing is injective on packable tuples, so packed `==` agrees with sparse `==`. */
  lemma WeightInjective(a: Sparse, b: Sparse)
    requires Packable(a) && Packable(b)
    ensures Weight(a) == Weight(b) <==> a == b
  {
    if Weight(a) == Weight(b) {
      PackedRoundTrip(a);
      PackedRoundTrip(b);
    }
  }

  lemma Distribute(x: int, y: int, p: int)
    ensures (x + y) * p == x * p + y * p
  {
  }

  /** The weight of the product is the sum of the weights. */
  lemma {:induction false} WeightMerge(a: Sparse, b: Sparse)
    requires IndicesAtLeast(a, 0) && IndicesAtLeast(b, 0)
    ensures IndicesAtLeast(Merge(a, b), 0)
    ensures Weight(Merge(a, b)) == Weight(a) + Weight(b)
    decreases |a| + |b|
  {
    MergeIndicesAtLeast(a, b, 0);
    if |a| > 0 && |b| > 0 {
      if a[0].index < b[0].index {
        WeightMerge(a[1..], b);
        WeightFromAppend([a[0]], Merge(a[1..], b), 0);
      } else if a[0].index == b[0].index {
        WeightMerge(a[1..], b[1..]);
        var p := Pow(PACKING_BOUND, a[0].index);
        var head: Sparse := if a[0].exp + b[0].exp != 0 then [Pair(a[0].index, a[0].exp + b[0].exp)] else [];
        WeightFromAppend(head, Merge(a[1..], b[1..]), 0);
        Distribute(a[0].exp, b[0].exp, p);
      } else {
        WeightMerge(a, b[1..]);
        WeightFromAppend([b[0]], Merge(a, b[1..]), 0);
      }
    }
  }

  /** `PackedMonomialData.__mul__` adds weights; without overflow the sum `n`
      decodes to the sparse product. */
  lemma PackedProduct(a: Sparse, b: Sparse, n: int)
    requires Packable(a) && Packable(b) && ExponentsFit(Merge(a, b))
    requires n == Weight(a) + Weight(b)
    ensures Digits(n, 0) == Merge(a, b)
  {
    WeightMerge(a, b);
    MergeWellFormed(a, b);
    DecodeWeight(Merge(a, b), n);
  }

  /** The packed 0 is the monomial 1, the identity of the packed product. */
  lemma PackedIdentity(t: Sparse)
    requires IndicesAtLeast(t, 0)
    ensures Weight([]) == 0 && Digits(0, 0) == []
    ensures Weight(Merge(t, [])) == Weight(t) + 0
  {
  }

  lemma {:induction false} DenseToSparseIndices(v: seq<int>, c: nat)
    ensures IndicesAtLeast(DenseToSparseFrom(v, c), c)
  {
    if |v| > 0 {
      DenseToSparseIndices(v[1..], c + 1);
    }
  }

  lemma {:induction false} DenseToSparseWeight(v: seq<int>, c: nat)
    ensures IndicesAtLeast(DenseToSparseFrom(v, c), 0)
    ensures DenseWeightFrom(v, c) == WeightFrom(DenseToSparseFrom(v, c), 0)
  {
    DenseToSparseIndices(v, c);
    if |v| > 0 {
      DenseToSparseWeight(v[1..], c + 1);
      var head: Sparse := if v[0] != 0 then [Pair(c, v[0])] else [];
      WeightFromAppend(head, DenseToSparseFrom(v[1..], c + 1), 0);
    }
  }

  /** The sparse form carries exactly the exponents of the dense vector. */
  lemma {:induction false} DenseToSparseExpAt(v: seq<int>, c: nat, i: int)
    ensures ExpAt(DenseToSparseFrom(v, c), i) == if c <= i < c + |v| then v[i - c] else 0
  {
    if |v| > 0 {
      DenseToSparseExpAt(v[1..], c + 1, i);
      var head: Sparse := if v[0] != 0 then [Pair(c, v[0])] else [];
      ExpAtAppend(head, DenseToSparseFrom(v[1..], c + 1), i);
      assert head == [] || head[1..] == [];
      assert ExpAt(head, i) == if i == c then v[0] else 0;
    }
  }

  /** A dense vector of nonnegative exponents has a well-formed sparse form. */
  lemma {:induction false} DenseToSparseWellFormed(v: seq<int>, c: nat)
    requires forall j :: 0 <= j < |v| ==> 0 <= v[j]
    ensures WellFormed(DenseToSparseFrom(v, c))
  {
    if |v| > 0 {
      DenseToSparseWellFormed(v[1..], c + 1);
      DenseToSparseIndices(v[1..], c + 1);
      if v[0] != 0 {
        ConsWellFormed(Pair(c, v[0]), DenseToSparseFrom(v[1..], c + 1));
      }
    }
  }

  lemma {:induction false} DenseToSparseFits(v: seq<int>, c: nat)
    requires forall j :: 0 <= j < |v| ==> v[j] < PACKING_BOUND
    ensures ExponentsFit(DenseToSparseFrom(v, c))
  {
    if |v| > 0 {
      DenseToSparseFits(v[1..], c + 1);
    }
  }

  /** `from_tuple` gives the weight that `from_sparse_tuple` gives the sparse form. */
  lemma DenseWeightAgrees(v: seq<int>)
    ensures IndicesAtLeast(DenseToSparse(v), 0)
    ensures DenseWeight(v) == Weight(DenseToSparse(v))
  {
    DenseToSparseWeight(v, 0);
  }

  /** `SparseMonomialData.from_packed_integer` agrees with `from_tuple` when
      every exponent is in `0 <= e < B`. */
  lemma FromPackedAgrees(v: seq<int>)
    requires forall j :: 0 <= j < |v| ==> 0 <= v[j] < PACKING_BOUND
    ensures Digits(DenseWeight(v), 0) == DenseToSparse(v)
  {
    DenseToSparseWeight(v, 0);
    DenseToSparseWellFormed(v, 0);
    DenseToSparseFits(v, 0);
    PackedRoundTrip(DenseToSparse(v));
  }

  /** The packed weight of `(1,2,4,7)` is `2·B + 7·B^4`. */
  lemma WeightExample()
    ensures Weight([Pair(1, 2), Pair(4, 7)]) == 129127208515966992384
  {
    var t: Sparse := [Pair(1, 2), Pair(4, 7)];
    assert Pow(PACKING_BOUND, 4) == 18446744073709551616;
    assert WeightFrom(t[1..], 0) == 7 * 18446744073709551616;
  }

  /** The dense `(0,2,0,0,7)` is the sparse `(1,2,4,7)`. */
  lemma DenseExample()
    ensures DenseToSparse([0, 2, 0, 0, 7]) == [Pair(1, 2), Pair(4, 7)]
  {
  }

  /** Decoding `2·B + 7·B^4` gives back `(1,2,4,7)`. */
  lemma DigitsExample()
    ensures Digits(129127208515966992384, 0) == [Pair(1, 2), Pair(4, 7)]
  {
    WeightExample();
    DecodeWeight([Pair(1, 2), Pair(4, 7)], 129127208515966992384);
  }
}
