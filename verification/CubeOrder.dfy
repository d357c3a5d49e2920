/**
  The order of boxes that contrib/cube gives to btree indexes and sorting
  (cube_cmp). Boxes of one dimension are totally ordered. Across dimensions the
  order runs in circles: two boxes are compared in the dimensions both have
  before the others are looked at, so which dimensions come first depends on the
  pair. It is shown for exactly which dimensions this happens.
 */
module CubeOrder {
  import opened Cube

  // ----- Comparing runs of dimensions

  lemma {:induction false} RunFlips(a: Ndbox, b: Ndbox, high: bool, i: nat, n: nat)
    ensures CmpRun(b, a, high, i, n) == -CmpRun(a, b, high, i, n)
    decreases n - i
  {
    if i < n {
      RunFlips(a, b, high, i + 1, n);
    }
  }

  /** c follows from two comparisons: no larger than them, and strict if one is. */
  predicate Chains(ab: int, bc: int, ac: int) {
    ab <= 0 && bc <= 0 ==> ac <= 0 && (ac == 0 <==> ab == 0 && bc == 0)
  }

  lemma {:induction false} RunChains(a: Ndbox, b: Ndbox, c: Ndbox, high: bool, i: nat, n: nat)
    ensures Chains(CmpRun(a, b, high, i, n), CmpRun(b, c, high, i, n), CmpRun(a, c, high, i, n))
    decreases n - i
  {
    if i < n {
      RunChains(a, b, c, high, i + 1, n);
    }
  }

  lemma {:induction false} DimsFlip(a: Ndbox, b: Ndbox, i: nat, n: nat)
    ensures CmpDims(b, a, i, n) == -CmpDims(a, b, i, n)
  {
    RunFlips(a, b, false, i, n);
    RunFlips(a, b, true, i, n);
  }

  lemma {:induction false} DimsChain(a: Ndbox, b: Ndbox, c: Ndbox, n: nat)
    ensures Chains(CmpDims(a, b, 0, n), CmpDims(b, c, 0, n), CmpDims(a, c, 0, n))
  {
    RunChains(a, b, c, false, 0, n);
    RunChains(a, b, c, true, 0, n);
  }

  /** Swapping the boxes changes the sign. */
  lemma {:induction false} OrderFlips(a: Ndbox, b: Ndbox)
    ensures Order(b, a) == -Order(a, b)
  {
    DimsFlip(a, b, 0, MinDim(a, b));
    DimsFlip(a, b, MinDim(a, b), MaxDim(a, b));
  }

  // ----- Where the order is one

  lemma {:induction false} OneDimension(a: Ndbox, b: Ndbox)
    requires a.dim == b.dim
    ensures Order(a, b) == CmpDims(a, b, 0, a.dim)
  {
    assert CmpDims(a, b, a.dim, a.dim) == 0;
  }

  /** Boxes of one dimension are totally ordered. */
  lemma {:induction false} OrderTransitive(a: Ndbox, b: Ndbox, c: Ndbox)
    requires a.dim == b.dim == c.dim
    ensures Chains(Order(a, b), Order(b, c), Order(a, c))
  {
    OneDimension(a, b);
    OneDimension(b, c);
    OneDimension(a, c);
    DimsChain(a, b, c, a.dim);
  }

  ghost predicate Circle(a: Ndbox, b: Ndbox, c: Ndbox) {
    Order(a, b) < 0 && Order(b, c) < 0 && Order(c, a) < 0
  }

  /** No three boxes of these dimensions are in a circle, either way round. */
  ghost predicate NoCircles(p: nat, q: nat, r: nat) {
    forall a: Ndbox, b: Ndbox, c: Ndbox | a.Valid() && b.Valid() && c.Valid() && a.dim == p && b.dim == q && c.dim == r ::
      !Circle(a, b, c) && !Circle(c, b, a)
  }

  /** Three comparisons over the same dimensions, one of them strict, are in no circle. */
  lemma {:induction false} DimsHaveNoCircle(a: Ndbox, b: Ndbox, c: Ndbox, n: nat)
    ensures !(CmpDims(a, b, 0, n) <= 0 && CmpDims(b, c, 0, n) <= 0 && CmpDims(c, a, 0, n) <= 0
              && (CmpDims(a, b, 0, n) < 0 || CmpDims(b, c, 0, n) < 0))
  {
    DimsChain(a, b, c, n);
    DimsFlip(a, c, 0, n);
  }

  /** Two of the lower dimension: the dimensions all three have decide. */
  lemma {:induction false} TwoLower(a: Ndbox, b: Ndbox, c: Ndbox)
    requires a.dim == b.dim <= c.dim
    ensures !Circle(a, b, c) && !Circle(c, b, a)
  {
    OneDimension(a, b);
    OneDimension(b, a);
    DimsHaveNoCircle(a, b, c, a.dim);
    DimsHaveNoCircle(b, a, c, a.dim);
  }

  /** The box without dimensions stands for one that is zero in all of them. */
  lemma {:induction false} AgainstNothing(a: Ndbox, b: Ndbox)
    requires a.dim == 0 < b.dim
    ensures Order(a, b) == Then(CmpDims(a, b, 0, b.dim), -1) && Order(b, a) == Then(CmpDims(b, a, 0, b.dim), 1)
  {
    assert CmpDims(a, b, 0, 0) == 0 && CmpDims(b, a, 0, 0) == 0;
  }

  lemma {:induction false} OneNothing(a: Ndbox, b: Ndbox, c: Ndbox)
    requires a.dim == 0 < b.dim == c.dim
    ensures !Circle(a, b, c) && !Circle(c, b, a)
  {
    AgainstNothing(a, b);
    AgainstNothing(a, c);
    OneDimension(b, c);
    OneDimension(c, b);
    DimsHaveNoCircle(a, b, c, b.dim);
    DimsHaveNoCircle(c, b, a, b.dim);
  }

  // ----- Where it is not

  /** Zero everywhere, but for a lower bound in dimension k and an upper bound in the first one. */
  function Spiked(dim: nat, k: nat, low: real, high: real): (b: Ndbox)
    requires 0 < dim && 0 < k
    ensures b.Valid() && b.dim == dim
  {
    Ndbox(dim, false, seq(2 * dim, i => if i == k && k < dim then low else if i == dim then high else 0.0))
  }

  lemma {:induction false} SpikedBounds(dim: nat, k: nat, low: real, high: real, i: nat)
    requires 0 < dim && 0 < k && low <= 0.0 <= high
    ensures var b := Spiked(dim, k, low, high);
            Low(b, i) == (if i == k && k < dim then low else 0.0) && High(b, i) == if i == 0 then high else 0.0
  {
  }

  /** The first difference decides. */
  lemma {:induction false} RunStops(a: Ndbox, b: Ndbox, high: bool, i: nat, n: nat, k: nat)
    requires i <= k < n && forall j | i <= j < k :: Coord(a, high, j) == Coord(b, high, j)
    requires Coord(a, high, k) < Coord(b, high, k)
    ensures CmpRun(a, b, high, i, n) == -1
    decreases n - i
  {
    if i < k {
      RunStops(a, b, high, i + 1, n, k);
    }
  }

  /** The lower bounds are the same and the first upper bound is lower. */
  lemma {:induction false} LowerFirstHigh(a: Ndbox, b: Ndbox, n: nat)
    requires 0 < n && (forall j | 0 <= j < n :: Low(a, j) == Low(b, j)) && High(a, 0) < High(b, 0)
    ensures CmpDims(a, b, 0, n) == -1
  {
    RunDecides(a, b, false, 0, n);
    RunStops(a, b, true, 0, n, 0);
  }

  /** The lower bound in dimension k is lower, and those before are the same. */
  lemma {:induction false} LowerLow(a: Ndbox, b: Ndbox, n: nat, k: nat)
    requires k < n && (forall j | 0 <= j < k :: Low(a, j) == Low(b, j)) && Low(a, k) < Low(b, k)
    ensures CmpDims(a, b, 0, n) == -1
  {
    RunStops(a, b, false, 0, n, k);
  }

  lemma {:induction false} CommonDecides(a: Ndbox, b: Ndbox)
    requires CmpDims(a, b, 0, MinDim(a, b)) == -1
    ensures Order(a, b) == -1
  {
  }

  /** The lowest box has a dimension: the upper bound in it decides twice, a lower bound it lacks once. */
  lemma {:induction false} CircleAbove(p: nat, q: nat, r: nat)
    requires 0 < p < q <= r
    ensures !NoCircles(p, q, r)
  {
    var a, b, c := Spiked(p, p, 0.0, 2.0), Spiked(q, p, -1.0, 3.0), Spiked(r, r, 0.0, 1.0);
    forall i: nat
      ensures Low(a, i) == Low(c, i) == 0.0 && Low(b, i) == (if i == p then -1.0 else 0.0)
      ensures High(a, i) == (if i == 0 then 2.0 else 0.0)
      ensures High(b, i) == (if i == 0 then 3.0 else 0.0)
      ensures High(c, i) == (if i == 0 then 1.0 else 0.0)
    {
      SpikedBounds(p, p, 0.0, 2.0, i);
      SpikedBounds(q, p, -1.0, 3.0, i);
      SpikedBounds(r, r, 0.0, 1.0, i);
    }
    LowerFirstHigh(a, b, p);
    CommonDecides(a, b);
    LowerLow(b, c, q, p);
    CommonDecides(b, c);
    LowerFirstHigh(c, a, p);
    CommonDecides(c, a);
    assert Circle(a, b, c);
  }

  /** It has none: a lower bound the middle one lacks comes first against the lowest, last against the middle one. */
  lemma {:induction false} CircleAtZero(q: nat, r: nat)
    requires 0 < q < r
    ensures !NoCircles(0, q, r)
  {
    var a, b, c := Ndbox(0, false, []), Spiked(q, q, 0.0, 1.0), Spiked(r, q, -1.0, 2.0);
    forall i: nat
      ensures Low(a, i) == High(a, i) == Low(b, i) == 0.0 && Low(c, i) == (if i == q then -1.0 else 0.0)
      ensures High(b, i) == (if i == 0 then 1.0 else 0.0)
      ensures High(c, i) == (if i == 0 then 2.0 else 0.0)
    {
      SpikedBounds(q, q, 0.0, 1.0, i);
      SpikedBounds(r, q, -1.0, 2.0, i);
    }
    LowerFirstHigh(a, b, q);
    AgainstNothing(a, b);
    LowerFirstHigh(b, c, q);
    CommonDecides(b, c);
    LowerLow(c, a, r, q);
    AgainstNothing(a, c);
    assert Circle(a, b, c);
  }

  /**
    The order of boxes of three dimensions, p at most q at most r, has no circle
    exactly if the two lower ones are equal, or the lowest is 0 and the others
    are equal.
   */
  lemma {:induction false} NoCirclesExactly(p: nat, q: nat, r: nat)
    requires p <= q <= r
    ensures NoCircles(p, q, r) <==> p == q || (p == 0 && q == r)
  {
    if p == q {
      forall a: Ndbox, b: Ndbox, c: Ndbox | a.dim == p && b.dim == q && c.dim == r ensures !Circle(a, b, c) && !Circle(c, b, a) {
        TwoLower(a, b, c);
      }
    } else if p == 0 && q == r {
      forall a: Ndbox, b: Ndbox, c: Ndbox | a.dim == p && b.dim == q && c.dim == r ensures !Circle(a, b, c) && !Circle(c, b, a) {
        OneNothing(a, b, c);
      }
    } else if p == 0 {
      CircleAtZero(q, r);
    } else {
      CircleAbove(p, q, r);
    }
  }
}
