/**
  Boxes of any dimension, contrib/cube/cube.c: union, containment, overlap and
  equality, and the GiST index over them. Coordinates are real numbers. A box of
  lower dimension stands for the same box with zeros in the dimensions it lacks.
 */
module Cube {

  // ----- Boxes

  /** NDBOX: the lower left corner, then the upper right one unless the box is flagged as a point. */
  datatype Ndbox = Ndbox(dim: nat, point: bool, x: seq<real>) {
    ghost predicate Valid() {
      (if point then dim else 2 * dim) <= |x|
    }
  }

  function LowerLeft(b: Ndbox, i: nat): real
    requires b.Valid() && i < b.dim
  {
    b.x[i]
  }

  function UpperRight(b: Ndbox, i: nat): real
    requires b.Valid() && i < b.dim
  {
    if b.point then b.x[i] else b.x[i + b.dim]
  }

  function Min(a: real, b: real): real {
    if a < b then a else b
  }

  function Max(a: real, b: real): real {
    if a > b then a else b
  }

  function LowAt(b: Ndbox, i: nat): real
    requires b.Valid() && i < b.dim
  {
    Min(LowerLeft(b, i), UpperRight(b, i))
  }

  function HighAt(b: Ndbox, i: nat): real
    requires b.Valid() && i < b.dim
  {
    Max(LowerLeft(b, i), UpperRight(b, i))
  }

  /** The least coordinate in a dimension, zero in those the box lacks. */
  ghost function Low(b: Ndbox, i: nat): real {
    if b.Valid() && i < b.dim then LowAt(b, i) else 0.0
  }

  ghost function High(b: Ndbox, i: nat): real {
    if b.Valid() && i < b.dim then HighAt(b, i) else 0.0
  }

  lemma {:induction false} LowIsLow(b: Ndbox, i: nat)
    ensures Low(b, i) <= High(b, i)
  {
  }

  /** The box k holds the padded box b. */
  ghost predicate Covers(k: Ndbox, b: Ndbox) {
    forall i: nat :: Low(k, i) <= Low(b, i) && High(b, i) <= High(k, i)
  }

  // ----- Union

  /** In every dimension, from the lower of the two to the higher. */
  ghost predicate IsUnion(r: Ndbox, a: Ndbox, b: Ndbox) {
    && r.Valid() && r.dim == (if a.dim < b.dim then b.dim else a.dim)
    && forall i: nat :: Low(r, i) == Min(Low(a, i), Low(b, i)) && High(r, i) == Max(High(a, i), High(b, i))
  }

  /** cube_union_v0; the same object twice is returned as it is. */
  method Union(a0: Ndbox, b0: Ndbox, same: bool) returns (r: Ndbox)
    requires a0.Valid() && b0.Valid() && (same ==> a0 == b0)
    ensures IsUnion(r, a0, b0)
    ensures !same ==> (r.point <==> forall i | 0 <= i < r.dim :: Low(r, i) == High(r, i))
  {
    if same {
      return a0;
    }
    var a, b := a0, b0;
    if a.dim < b.dim {
      a, b := b, a;
    }
    var x := Corners(a, b);
    r := Ndbox(a.dim, false, x);
    CornersAreUnion(r, a, b);
    var point := IsPoint(r);
    FlatIsPoint(r);
    if point {
      PointFlag(r);
      r := r.(point := true);
    }
  }

  /** The two corners, for a of at least the dimension of b. */
  ghost predicate AreCorners(x: seq<real>, a: Ndbox, b: Ndbox) {
    && a.Valid() && b.Valid() && b.dim <= a.dim && |x| == 2 * a.dim
    && (forall i | 0 <= i < a.dim :: x[i] == Min(LowAt(a, i), Low(b, i)))
    && (forall i | a.dim <= i < 2 * a.dim :: x[i] == Max(HighAt(a, i - a.dim), High(b, i - a.dim)))
  }

  method Corners(a: Ndbox, b: Ndbox) returns (x: seq<real>)
    requires a.Valid() && b.Valid() && b.dim <= a.dim
    ensures AreCorners(x, a, b)
  {
    var c := new real[2 * a.dim](_ => 0.0);
    for i := 0 to b.dim
      invariant forall j | 0 <= j < i :: c[j] == Min(LowAt(a, j), Low(b, j))
      invariant forall j | a.dim <= j < a.dim + i :: c[j] == Max(HighAt(a, j - a.dim), High(b, j - a.dim))
    {
      c[i] := Min(Min(LowerLeft(a, i), UpperRight(a, i)), Min(LowerLeft(b, i), UpperRight(b, i)));
      c[i + a.dim] := Max(Max(LowerLeft(a, i), UpperRight(a, i)), Max(LowerLeft(b, i), UpperRight(b, i)));
    }
    for i := b.dim to a.dim
      invariant forall j | 0 <= j < i :: c[j] == Min(LowAt(a, j), Low(b, j))
      invariant forall j | a.dim <= j < a.dim + i :: c[j] == Max(HighAt(a, j - a.dim), High(b, j - a.dim))
    {
      c[i] := Min(0.0, Min(LowerLeft(a, i), UpperRight(a, i)));
      c[i + a.dim] := Max(0.0, Max(LowerLeft(a, i), UpperRight(a, i)));
    }
    x := c[..];
  }

  lemma {:induction false} CornersAreUnion(r: Ndbox, a: Ndbox, b: Ndbox)
    requires AreCorners(r.x, a, b) && r.dim == a.dim && !r.point
    ensures IsUnion(r, a, b) && IsUnion(r, b, a)
  {
    forall i: nat ensures Low(r, i) == Min(Low(a, i), Low(b, i)) && High(r, i) == Max(High(a, i), High(b, i)) {
      LowIsLow(a, i);
      LowIsLow(b, i);
      if i < a.dim {
        assert r.x[i] == Min(LowAt(a, i), Low(b, i));
        assert r.x[i + a.dim] == Max(HighAt(a, i + a.dim - a.dim), High(b, i + a.dim - a.dim));
      }
    }
  }

  /** cube_is_point_internal. */
  method IsPoint(b: Ndbox) returns (res: bool)
    requires b.Valid()
    ensures res <==> forall i | 0 <= i < b.dim :: LowerLeft(b, i) == UpperRight(b, i)
  {
    if b.point {
      return true;
    }
    for i := 0 to b.dim
      invariant forall j | 0 <= j < i :: LowerLeft(b, j) == UpperRight(b, j)
    {
      if LowerLeft(b, i) != UpperRight(b, i) {
        return false;
      }
    }
    res := true;
  }

  lemma {:induction false} FlatIsPoint(b: Ndbox)
    requires b.Valid()
    ensures (forall i | 0 <= i < b.dim :: Low(b, i) == High(b, i)) <==> forall i | 0 <= i < b.dim :: LowerLeft(b, i) == UpperRight(b, i)
  {
    assert forall i | 0 <= i < b.dim :: Low(b, i) == High(b, i) <==> LowerLeft(b, i) == UpperRight(b, i);
  }

  /** Flagging a box that is a point does not move it. */
  lemma {:induction false} PointFlag(b: Ndbox)
    requires b.Valid() && forall i | 0 <= i < b.dim :: LowerLeft(b, i) == UpperRight(b, i)
    ensures var p := b.(point := true); p.Valid() && forall i: nat :: Low(p, i) == Low(b, i) && High(p, i) == High(b, i)
  {
    var p := b.(point := true);
    forall i: nat ensures Low(p, i) == Low(b, i) && High(p, i) == High(b, i) {
      if i < b.dim {
        assert LowerLeft(b, i) == UpperRight(b, i);
      }
    }
  }

  // ----- Tests

  /** In every dimension of b, and in those only, the interval of b lies in that of a. */
  ghost predicate Contains(a: Ndbox, b: Ndbox) {
    forall i | 0 <= i < b.dim :: Low(a, i) <= Low(b, i) && High(b, i) <= High(a, i)
  }

  /** The padded boxes have a point in common. */
  ghost predicate Overlaps(a: Ndbox, b: Ndbox) {
    forall i: nat :: Low(a, i) <= High(b, i) && Low(b, i) <= High(a, i)
  }

  ghost predicate Same(a: Ndbox, b: Ndbox) {
    a.dim == b.dim && forall i | 0 <= i < a.dim :: Low(a, i) == Low(b, i) && High(a, i) == High(b, i)
  }

  /** cube_contains_v0. */
  method ContainsV0(a: Ndbox, b: Ndbox) returns (res: bool)
    requires a.Valid() && b.Valid()
    ensures res <==> Contains(a, b)
  {
    if a.dim < b.dim {
      for i := a.dim to b.dim
        invariant forall j | a.dim <= j < i :: Low(b, j) == 0.0 && High(b, j) == 0.0
      {
        LowIsLow(b, i);
        if LowerLeft(b, i) != 0.0 || UpperRight(b, i) != 0.0 {
          assert !(Low(a, i) <= Low(b, i) && High(b, i) <= High(a, i));
          return false;
        }
      }
    }
    for i := 0 to if a.dim < b.dim then a.dim else b.dim
      invariant forall j | 0 <= j < i :: Low(a, j) <= Low(b, j) && High(b, j) <= High(a, j)
    {
      if LowAt(a, i) > LowAt(b, i) || HighAt(a, i) < HighAt(b, i) {
        assert !(Low(a, i) <= Low(b, i) && High(b, i) <= High(a, i));
        return false;
      }
    }
    res := true;
  }

  /** cube_overlap_v0. */
  method OverlapV0(a0: Ndbox, b0: Ndbox) returns (res: bool)
    requires a0.Valid() && b0.Valid()
    ensures res <==> Overlaps(a0, b0)
  {
    var a, b := a0, b0;
    if a.dim < b.dim {
      a, b := b, a;
    }
    for i := 0 to b.dim
      invariant forall j | 0 <= j < i :: Low(a, j) <= High(b, j) && Low(b, j) <= High(a, j)
    {
      if LowAt(a, i) > HighAt(b, i) || HighAt(a, i) < LowAt(b, i) {
        assert !(Low(a, i) <= High(b, i) && Low(b, i) <= High(a, i));
        return false;
      }
    }
    for i := b.dim to a.dim
      invariant forall j | 0 <= j < i :: Low(a, j) <= High(b, j) && Low(b, j) <= High(a, j)
    {
      if LowAt(a, i) > 0.0 || HighAt(a, i) < 0.0 {
        assert !(Low(a, i) <= High(b, i) && Low(b, i) <= High(a, i));
        return false;
      }
    }
    res := true;
  }

  ghost function Coord(b: Ndbox, high: bool, i: nat): real {
    if high then High(b, i) else Low(b, i)
  }

  function Sign(x: real, y: real): int {
    if x > y then 1 else if x < y then -1 else 0
  }

  /** The first of the dimensions i to n in which the bounds differ decides. */
  ghost function CmpRun(a: Ndbox, b: Ndbox, high: bool, i: nat, n: nat): (c: int)
    ensures -1 <= c <= 1
    decreases n - i
  {
    if i >= n then 0
    else
      var c := Sign(Coord(a, high, i), Coord(b, high, i));
      if c != 0 then c else CmpRun(a, b, high, i + 1, n)
  }

  function Then(c: int, d: int): int {
    if c != 0 then c else d
  }

  /** Lower bounds before upper bounds, in the dimensions i to n. */
  ghost function CmpDims(a: Ndbox, b: Ndbox, i: nat, n: nat): (c: int)
    ensures -1 <= c <= 1
  {
    Then(CmpRun(a, b, false, i, n), CmpRun(a, b, true, i, n))
  }

  function MinDim(a: Ndbox, b: Ndbox): nat {
    if a.dim < b.dim then a.dim else b.dim
  }

  function MaxDim(a: Ndbox, b: Ndbox): nat {
    if a.dim < b.dim then b.dim else a.dim
  }

  /** The dimensions both have, then those only one has against zero, then the number of dimensions. */
  ghost function Order(a: Ndbox, b: Ndbox): (c: int)
    ensures -1 <= c <= 1
  {
    var d, e := MinDim(a, b), MaxDim(a, b);
    Then(Then(CmpDims(a, b, 0, d), CmpDims(a, b, d, e)), if a.dim > b.dim then 1 else if a.dim < b.dim then -1 else 0)
  }

  /** One of the loops of cube_cmp_v0; in the dimensions a box lacks it has zero. */
  method CompareRun(a: Ndbox, b: Ndbox, high: bool, lo: nat, hi: nat) returns (c: int)
    requires a.Valid() && b.Valid() && lo <= hi <= MaxDim(a, b)
    ensures c == CmpRun(a, b, high, lo, hi)
  {
    c := 0;
    for i := lo to hi
      invariant CmpRun(a, b, high, lo, hi) == CmpRun(a, b, high, i, hi)
    {
      var x, y := 0.0, 0.0;
      if i < a.dim {
        x := if high then HighAt(a, i) else LowAt(a, i);
      }
      if i < b.dim {
        y := if high then HighAt(b, i) else LowAt(b, i);
      }
      if x > y {
        return 1;
      }
      if x < y {
        return -1;
      }
    }
  }

  /** The bounds of a and b agree in the dimensions lo to n. */
  ghost predicate Agree(a: Ndbox, b: Ndbox, high: bool, lo: nat, n: nat) {
    forall j | lo <= j < n :: Coord(a, high, j) == Coord(b, high, j)
  }

  /** From lo on they first differ in dimension i. */
  ghost predicate DifferAt(a: Ndbox, b: Ndbox, high: bool, lo: nat, i: nat) {
    lo <= i && Agree(a, b, high, lo, i) && Coord(a, high, i) != Coord(b, high, i)
  }

  lemma {:induction false} RunAt(a: Ndbox, b: Ndbox, high: bool, lo: nat, i: nat, n: nat)
    requires DifferAt(a, b, high, lo, i) && i < n
    ensures CmpRun(a, b, high, lo, n) == if Coord(a, high, i) < Coord(b, high, i) then -1 else 1
    decreases i - lo
  {
    if lo < i {
      RunAt(a, b, high, lo + 1, i, n);
    }
  }

  lemma {:induction false} RunsAt(a: Ndbox, b: Ndbox, high: bool, lo: nat, n: nat)
    ensures forall i: nat | i < n && DifferAt(a, b, high, lo, i) :: CmpRun(a, b, high, lo, n) == if Coord(a, high, i) < Coord(b, high, i) then -1 else 1
    ensures Agree(a, b, high, lo, n) ==> CmpRun(a, b, high, lo, n) == 0
  {
    RunDecides(a, b, high, lo, n);
    forall i: nat | i < n && DifferAt(a, b, high, lo, i)
      ensures CmpRun(a, b, high, lo, n) == if Coord(a, high, i) < Coord(b, high, i) then -1 else 1
    {
      RunAt(a, b, high, lo, i, n);
    }
  }

  /**
    cube_cmp_v0. The first difference decides, the smaller coordinate being the smaller
    box: in the lower bounds of the dimensions both have, in their upper bounds, in the
    lower and upper bounds of the other dimensions, and last in the number of dimensions.
   */
  method CmpV0(a: Ndbox, b: Ndbox) returns (res: int)
    requires a.Valid() && b.Valid()
    ensures res == Order(a, b) && (res == 0 <==> Same(a, b))
    ensures var d := MinDim(a, b);
            && (forall i: nat | i < d && DifferAt(a, b, false, 0, i) :: res == if Low(a, i) < Low(b, i) then -1 else 1)
            && (Agree(a, b, false, 0, d) ==>
                  forall i: nat | i < d && DifferAt(a, b, true, 0, i) :: res == if High(a, i) < High(b, i) then -1 else 1)
    ensures var d, e := MinDim(a, b), MaxDim(a, b);
            Agree(a, b, false, 0, d) && Agree(a, b, true, 0, d) ==>
              && (forall i: nat | i < e && DifferAt(a, b, false, d, i) :: res == if Low(a, i) < Low(b, i) then -1 else 1)
              && (Agree(a, b, false, d, e) ==>
                    && (forall i: nat | i < e && DifferAt(a, b, true, d, i) :: res == if High(a, i) < High(b, i) then -1 else 1)
                    && (Agree(a, b, true, d, e) ==> res == if a.dim < b.dim then -1 else if a.dim > b.dim then 1 else 0))
  {
    res := CmpByOrder(a, b);
    var d, e := MinDim(a, b), MaxDim(a, b);
    RunsAt(a, b, false, 0, d);
    RunsAt(a, b, true, 0, d);
    RunsAt(a, b, false, d, e);
    RunsAt(a, b, true, d, e);
  }

  method CmpByOrder(a: Ndbox, b: Ndbox) returns (res: int)
    requires a.Valid() && b.Valid()
    ensures res == Order(a, b) && (res == 0 <==> Same(a, b))
  {
    OrderDecides(a, b);
    var dim, more := MinDim(a, b), MaxDim(a, b);
    res := CompareRun(a, b, false, 0, dim);
    if res != 0 {
      return;
    }
    res := CompareRun(a, b, true, 0, dim);
    if res != 0 {
      return;
    }
    res := CompareRun(a, b, false, dim, more);
    if res != 0 {
      return;
    }
    res := CompareRun(a, b, true, dim, more);
    if res != 0 {
      return;
    }
    res := if a.dim > b.dim then 1 else if a.dim < b.dim then -1 else 0;
  }

  /** Only the same box of the same dimension compares as equal. */
  lemma {:induction false} OrderDecides(a: Ndbox, b: Ndbox)
    requires a.Valid() && b.Valid()
    ensures Order(a, b) == 0 <==> Same(a, b)
  {
    if a.dim == b.dim {
      RunDecides(a, b, false, 0, a.dim);
      RunDecides(a, b, true, 0, a.dim);
      assert CmpDims(a, b, a.dim, a.dim) == 0;
      assert forall i | 0 <= i < a.dim :: Coord(a, false, i) == Low(a, i) && Coord(a, true, i) == High(a, i);
      assert forall i | 0 <= i < a.dim :: Coord(b, false, i) == Low(b, i) && Coord(b, true, i) == High(b, i);
    }
  }

  lemma {:induction false} RunDecides(a: Ndbox, b: Ndbox, high: bool, i: nat, n: nat)
    ensures CmpRun(a, b, high, i, n) == 0 <==> forall j | i <= j < n :: Coord(a, high, j) == Coord(b, high, j)
    decreases n - i
  {
    if i < n {
      RunDecides(a, b, high, i + 1, n);
    }
  }

  // ----- Hulls of several boxes

  /** The smallest box over the members s of a page: it covers each, and each of its bounds is that of a member. */
  ghost predicate IsHull(k: Ndbox, page: seq<Ndbox>, s: set<nat>) {
    && k.Valid() && (forall j | j in s :: j < |page| && Covers(k, page[j]))
    && (forall i: nat :: LowAttained(k, page, s, i) && HighAttained(k, page, s, i))
  }

  ghost predicate LowAttained(k: Ndbox, page: seq<Ndbox>, s: set<nat>, i: nat) {
    exists j | j in s && j < |page| :: Low(page[j], i) == Low(k, i)
  }

  ghost predicate HighAttained(k: Ndbox, page: seq<Ndbox>, s: set<nat>, i: nat) {
    exists j | j in s && j < |page| :: High(page[j], i) == High(k, i)
  }

  lemma {:induction false} HullOfOne(page: seq<Ndbox>, j: nat)
    requires j < |page| && page[j].Valid()
    ensures IsHull(page[j], page, {j})
  {
  }

  lemma {:induction false} HullGrows(k: Ndbox, page: seq<Ndbox>, s: set<nat>, j: nat, r: Ndbox)
    requires IsHull(k, page, s) && j < |page| && IsUnion(r, k, page[j])
    ensures IsHull(r, page, s + {j})
  {
    forall i: nat ensures LowAttained(r, page, s + {j}, i) && HighAttained(r, page, s + {j}, i) {
      assert LowAttained(k, page, s, i) && HighAttained(k, page, s, i);
      var l :| l in s && l < |page| && Low(page[l], i) == Low(k, i);
      var h :| h in s && h < |page| && High(page[h], i) == High(k, i);
      assert l in s + {j} && h in s + {j} && j in s + {j};
      assert Low(r, i) == Min(Low(k, i), Low(page[j], i)) && High(r, i) == Max(High(k, i), High(page[j], i));
    }
    CoversGrow(k, page, s, j, r);
  }

  lemma {:induction false} CoversGrow(k: Ndbox, page: seq<Ndbox>, s: set<nat>, j: nat, r: Ndbox)
    requires (forall m | m in s :: m < |page| && Covers(k, page[m])) && j < |page| && IsUnion(r, k, page[j])
    ensures forall m | m in s + {j} :: m < |page| && Covers(r, page[m])
  {
    forall m | m in s + {j} ensures Covers(r, page[m]) {
      forall i: nat ensures Low(r, i) <= Low(page[m], i) && High(page[m], i) <= High(r, i) {
        assert Low(r, i) == Min(Low(k, i), Low(page[j], i)) && High(r, i) == Max(High(k, i), High(page[j], i));
        if m != j {
          assert Low(k, i) <= Low(page[m], i) && High(page[m], i) <= High(k, i);
        }
      }
    }
  }

  ghost function Upto(n: nat): set<nat> {
    set j: nat | j < n && IsBelow(j, n)
  }

  predicate IsBelow(j: nat, n: nat) {
    j < n
  }

  /** g_cube_union. */
  method UnionAll(page: seq<Ndbox>) returns (out: Ndbox)
    requires 2 <= |page| && forall j | 0 <= j < |page| :: page[j].Valid()
    ensures IsHull(out, page, Upto(|page|))
  {
    out := page[0];
    HullOfOne(page, 0);
    assert Upto(1) == {0};
    for i := 1 to |page|
      invariant IsHull(out, page, Upto(i))
    {
      var r := Union(out, page[i], false);
      HullGrows(out, page, Upto(i), i, r);
      assert Upto(i + 1) == Upto(i) + {i};
      out := r;
    }
  }

  // ----- Splitting a page

  ghost predicate Ascending(side: seq<nat>) {
    forall i, j | 0 <= i < j < |side| :: side[i] < side[j]
  }

  ghost function Members(side: seq<nat>): set<nat> {
    set j | j in side
  }

  /** The first pair that would waste the most; the last entry is not looked at unless there are only two. */
  method Seeds(page: seq<Ndbox>, wasted: (Ndbox, Ndbox) -> real) returns (seed1: nat, seed2: nat)
    requires 3 <= |page|
    ensures 1 <= seed1 < seed2 < |page|
  {
    var maxoff := |page| - 2;
    var firsttime, waste := true, 0.0;
    seed1, seed2 := 1, 2;
    var i := 1;
    while i < maxoff
      invariant 1 <= seed1 < seed2 < |page|
    {
      for j := i + 1 to maxoff + 1
        invariant 1 <= seed1 < seed2 < |page|
      {
        if wasted(page[i], page[j]) > waste || firsttime {
          waste, seed1, seed2, firsttime := wasted(page[i], page[j]), i, j, false;
        }
      }
      i := i + 1;
    }
  }

  /** One side after the offsets below i: in order, and the hull of its members and its seed. */
  ghost predicate Side(page: seq<Ndbox>, side: seq<nat>, key: Ndbox, seed: nat, i: nat) {
    && Ascending(side) && (forall j | j in side :: 1 <= j < i)
    && seed < |page| && (seed < i ==> seed in side)
    && IsHull(key, page, Members(side) + {seed})
  }

  lemma {:induction false} SideSnoc(side: seq<nat>, i: nat)
    requires Ascending(side) && forall j | j in side :: 1 <= j < i
    ensures Ascending(side + [i]) && Members(side + [i]) == Members(side) + {i}
  {
    forall m | 0 <= m < |side| ensures side[m] < i {
      assert side[m] in side;
    }
  }

  lemma {:induction false} SideTakes(page: seq<Ndbox>, side: seq<nat>, key: Ndbox, seed: nat, i: nat, r: Ndbox)
    requires Side(page, side, key, seed, i) && 1 <= i < |page| && IsUnion(r, key, page[i]) && i != seed
    ensures Side(page, side + [i], r, seed, i + 1)
  {
    SideSnoc(side, i);
    HullGrows(key, page, Members(side) + {seed}, i, r);
    assert Members(side) + {seed} + {i} == Members(side + [i]) + {seed};
  }

  lemma {:induction false} SideTakesSeed(page: seq<Ndbox>, side: seq<nat>, key: Ndbox, seed: nat)
    requires Side(page, side, key, seed, seed) && 1 <= seed
    ensures Side(page, side + [seed], key, seed, seed + 1)
  {
    SideSnoc(side, seed);
    assert Members(side + [seed]) + {seed} == Members(side) + {seed};
  }

  /** Every offset below i is on one side and no offset on both. */
  ghost predicate Divided(left: seq<nat>, right: seq<nat>, i: nat) {
    forall j: nat | 1 <= j < i :: (j in left) != (j in right)
  }

  /** g_cube_picksplit, whatever the sizes of boxes. */
  method PickSplit(page: seq<Ndbox>, wasted: (Ndbox, Ndbox) -> real, size: Ndbox -> real)
    returns (left: seq<nat>, right: seq<nat>, keyL: Ndbox, keyR: Ndbox)
    requires 3 <= |page| && forall j | 0 <= j < |page| :: page[j].Valid()
    ensures Ascending(left) && Ascending(right) && left != [] && right != [] && Divided(left, right, |page|)
    ensures (forall j | j in left :: 1 <= j < |page|) && (forall j | j in right :: 1 <= j < |page|)
    ensures IsHull(keyL, page, Members(left)) && IsHull(keyR, page, Members(right))
  {
    var seed1, seed2 := Seeds(page, wasted);
    keyL := Union(page[seed1], page[seed1], true);
    keyR := Union(page[seed2], page[seed2], true);
    UnionWithItself(keyL, page, seed1);
    UnionWithItself(keyR, page, seed2);
    left, right := [], [];
    assert Members([]) + {seed1} == {seed1} && Members([]) + {seed2} == {seed2};
    var i := 1;
    while i < |page|
      invariant 1 <= i <= |page| && Side(page, left, keyL, seed1, i) && Side(page, right, keyR, seed2, i) && Divided(left, right, i)
    {
      left, right, keyL, keyR := Place(page, size, left, right, keyL, keyR, seed1, seed2, i);
      i := i + 1;
    }
    assert Members(left) + {seed1} == Members(left) && Members(right) + {seed2} == Members(right);
  }

  lemma {:induction false} UnionWithItself(r: Ndbox, page: seq<Ndbox>, j: nat)
    requires j < |page| && page[j].Valid() && IsUnion(r, page[j], page[j])
    ensures IsHull(r, page, {j})
  {
    HullOfOne(page, j);
    HullGrows(page[j], page, {j}, j, r);
    assert {j} + {j} == {j};
  }

  method Place(page: seq<Ndbox>, size: Ndbox -> real, left: seq<nat>, right: seq<nat>, keyL: Ndbox, keyR: Ndbox, seed1: nat, seed2: nat, i: nat)
    returns (left': seq<nat>, right': seq<nat>, keyL': Ndbox, keyR': Ndbox)
    requires 1 <= i < |page| && page[i].Valid() && seed1 != seed2
    requires Side(page, left, keyL, seed1, i) && Side(page, right, keyR, seed2, i) && Divided(left, right, i)
    ensures Side(page, left', keyL', seed1, i + 1) && Side(page, right', keyR', seed2, i + 1) && Divided(left', right', i + 1)
  {
    left', right', keyL', keyR' := left, right, keyL, keyR;
    assert i !in left && i !in right;
    if i == seed1 {
      SideTakesSeed(page, left, keyL, i);
      left' := left + [i];
    } else if i == seed2 {
      SideTakesSeed(page, right, keyR, i);
      right' := right + [i];
    } else {
      var unionL := Union(keyL, page[i], false);
      var unionR := Union(keyR, page[i], false);
      if size(unionL) - size(keyL) < size(unionR) - size(keyR) {
        SideTakes(page, left, keyL, seed1, i, unionL);
        left', keyL' := left + [i], unionL;
      } else {
        SideTakes(page, right, keyR, seed2, i, unionR);
        right', keyR' := right + [i], unionR;
      }
    }
  }

  // ----- Searching

  datatype Strategy = Overlap | SameBox | Contain | ContainedBy

  /** The operator on a row. */
  ghost predicate Satisfies(b: Ndbox, q: Ndbox, st: Strategy) {
    match st
    case Overlap => Overlaps(b, q)
    case SameBox => Same(b, q)
    case Contain => Contains(b, q)
    case ContainedBy => Contains(q, b)
  }

  /** g_cube_leaf_consistent: the operator itself. */
  method LeafConsistent(key: Ndbox, query: Ndbox, st: Strategy) returns (res: bool)
    requires key.Valid() && query.Valid()
    ensures res <==> Satisfies(key, query, st)
  {
    match st {
      case Overlap => res := OverlapV0(key, query);
      case SameBox =>
        var c := CmpV0(key, query);
        res := c == 0;
      case Contain => res := ContainsV0(key, query);
      case ContainedBy => res := ContainsV0(query, key);
    }
  }

  ghost predicate Passes(key: Ndbox, q: Ndbox, st: Strategy) {
    if st == Overlap || st == ContainedBy then Overlaps(key, q) else Contains(key, q)
  }

  /** g_cube_internal_consistent. */
  method InternalConsistent(key: Ndbox, query: Ndbox, st: Strategy) returns (res: bool)
    requires key.Valid() && query.Valid()
    ensures res <==> Passes(key, query, st)
  {
    if st == Overlap || st == ContainedBy {
      res := OverlapV0(key, query);
    } else {
      res := ContainsV0(key, query);
    }
  }

  /**
    A box that satisfies the operator passes under every box that covers it. For
    containment in the query this asks that the query holds the padded box.
   */
  lemma {:induction false} SatisfyingBoxPasses(k: Ndbox, b: Ndbox, q: Ndbox, st: Strategy)
    requires Covers(k, b) && Satisfies(b, q, st) && (st == ContainedBy ==> Covers(q, b))
    ensures Passes(k, q, st)
  {
    forall i: nat ensures Low(k, i) <= Low(b, i) <= High(b, i) <= High(k, i) {
      LowIsLow(b, i);
    }
    if st == ContainedBy {
      forall i: nat ensures Low(k, i) <= High(q, i) && Low(q, i) <= High(k, i) {
        assert Low(q, i) <= Low(b, i) && High(b, i) <= High(q, i);
      }
    }
  }

  /** The box that two padded boxes have in common. */
  lemma {:induction false} CommonBox(a: Ndbox, b: Ndbox) returns (c: Ndbox)
    requires a.Valid() && b.Valid() && Overlaps(a, b)
    ensures c.Valid() && Covers(a, c) && Covers(b, c)
  {
    var n := MaxDim(a, b);
    var x: seq<real> := seq(2 * n, (i: nat) => if i < n then Max(Low(a, i), Low(b, i)) else Min(High(a, i - n), High(b, i - n)));
    c := Ndbox(n, false, x);
    forall i: nat ensures Low(a, i) <= Low(c, i) && High(c, i) <= High(a, i) && Low(b, i) <= Low(c, i) && High(c, i) <= High(b, i) {
      LowIsLow(a, i);
      LowIsLow(b, i);
      assert Low(a, i) <= High(b, i) && Low(b, i) <= High(a, i);
      if i < n {
        assert x[i] == Max(Low(a, i), Low(b, i)) && x[i + n] == Min(High(a, i), High(b, i));
        assert Low(c, i) == x[i] && High(c, i) == x[i + n];
      }
    }
  }

  /**
    An inner key passes exactly if some box under it satisfies the operator: containing
    the query in place of being the same, and for containment in the query the padded box.
   */
  lemma {:induction false} InnerIsTight(k: Ndbox, q: Ndbox, st: Strategy)
    requires k.Valid() && q.Valid()
    ensures Passes(k, q, st) <==>
              exists b: Ndbox :: b.Valid() && Covers(k, b) && Satisfies(b, q, if st == SameBox then Contain else st) && (st == ContainedBy ==> Covers(q, b))
  {
    var st' := if st == SameBox then Contain else st;
    forall b: Ndbox | b.Valid() && Covers(k, b) && Satisfies(b, q, st') && (st == ContainedBy ==> Covers(q, b)) ensures Passes(k, q, st) {
      SatisfyingBoxPasses(k, b, q, st');
    }
    if Passes(k, q, st) {
      if st == ContainedBy {
        var c := CommonBox(k, q);
        assert Contains(q, c);
      } else {
        assert Covers(k, k) && Satisfies(k, q, st');
      }
    }
  }

  datatype Tree = Leaf(box: Ndbox) | Inner(key: Ndbox, kids: seq<Tree>)

  function KeyOf(t: Tree): Ndbox {
    match t
    case Leaf(box) => box
    case Inner(key, _) => key
  }

  /** The key of every page covers the keys on it. */
  ghost predicate Grown(t: Tree) {
    t.Inner? ==> forall i | 0 <= i < |t.kids| :: Grown(t.kids[i]) && Covers(t.key, KeyOf(t.kids[i]))
  }

  ghost predicate Below(t: Tree, b: Ndbox) {
    match t
    case Leaf(box) => box == b
    case Inner(_, kids) => exists i | 0 <= i < |kids| :: Below(kids[i], b)
  }

  ghost predicate Hit(t: Tree, b: Ndbox, q: Ndbox, st: Strategy) {
    match t
    case Leaf(box) => box == b && Satisfies(box, q, st)
    case Inner(key, kids) => Passes(key, q, st) && exists i | 0 <= i < |kids| :: Hit(kids[i], b, q, st)
  }

  lemma {:induction false} KeyCoversBox(t: Tree, b: Ndbox)
    requires Grown(t) && Below(t, b)
    ensures Covers(KeyOf(t), b)
  {
    match t
    case Leaf(_) =>
    case Inner(key, kids) =>
      var i :| 0 <= i < |kids| && Below(kids[i], b);
      KeyCoversBox(kids[i], b);
      CoversTransitive(key, KeyOf(kids[i]), b);
  }

  lemma {:induction false} CoversTransitive(a: Ndbox, b: Ndbox, c: Ndbox)
    requires Covers(a, b) && Covers(b, c)
    ensures Covers(a, c)
  {
    forall i: nat ensures Low(a, i) <= Low(c, i) && High(c, i) <= High(a, i) {
      assert Low(a, i) <= Low(b, i) && High(b, i) <= High(a, i);
    }
  }

  /** Searching the index finds every box that satisfies the operator, with the same proviso. */
  lemma {:induction false} IndexLosesNothing(t: Tree, b: Ndbox, q: Ndbox, st: Strategy)
    requires Grown(t) && Below(t, b) && Satisfies(b, q, st) && (st == ContainedBy ==> Covers(q, b))
    ensures Hit(t, b, q, st)
  {
    match t
    case Leaf(_) =>
    case Inner(key, kids) =>
      KeyCoversBox(t, b);
      SatisfyingBoxPasses(key, b, q, st);
      var i :| 0 <= i < |kids| && Below(kids[i], b);
      IndexLosesNothing(kids[i], b, q, st);
  }

  /** A page of one box, keyed by the box, is not entered if the query does not hold the padded box. */
  lemma {:induction false} SinglePageMisses(b: Ndbox, q: Ndbox)
    requires Contains(q, b) && !Covers(q, b)
    ensures !Passes(b, q, ContainedBy) && !Hit(Inner(b, [Leaf(b)]), b, q, ContainedBy)
  {
    var i: nat :| !(Low(q, i) <= Low(b, i) && High(b, i) <= High(q, i));
    assert b.dim <= i && Low(b, i) == 0.0 == High(b, i);
    assert !(Low(b, i) <= High(q, i) && Low(q, i) <= High(b, i)) by {
      LowIsLow(q, i);
    }
  }

  /**
    A box inside the query is found in every index that holds it exactly when
    the query holds the padded box: in each dimension only the query has, its
    interval holds zero.
   */
  lemma {:induction false} ContainedByFoundExactly(b: Ndbox, q: Ndbox)
    requires Contains(q, b)
    ensures (forall t | Grown(t) && Below(t, b) :: Hit(t, b, q, ContainedBy)) <==> Covers(q, b)
    ensures (forall k | Covers(k, b) :: Passes(k, q, ContainedBy)) <==> Covers(q, b)
    ensures Covers(q, b) <==> forall i | b.dim <= i < q.dim :: Low(q, i) <= 0.0 <= High(q, i)
  {
    if Covers(q, b) {
      forall t | Grown(t) && Below(t, b) ensures Hit(t, b, q, ContainedBy) {
        IndexLosesNothing(t, b, q, ContainedBy);
      }
      forall k | Covers(k, b) ensures Passes(k, q, ContainedBy) {
        SatisfyingBoxPasses(k, b, q, ContainedBy);
      }
      forall i | b.dim <= i < q.dim ensures Low(q, i) <= 0.0 <= High(q, i) {
        assert Low(q, i) <= Low(b, i) && High(b, i) <= High(q, i);
      }
    } else {
      SinglePageMisses(b, q);
      var page := Inner(b, [Leaf(b)]);
      assert Below([Leaf(b)][0], b) && Grown(page) && Below(page, b);
      assert Covers(b, b);
    }
  }

  /** So a box can be missed: the point 1 is inside the box from (0, 5) to (2, 6) and is not found below its page. */
  lemma {:induction false} LowerDimensionIsMissed()
    ensures var b, q := Ndbox(1, true, [1.0]), Ndbox(2, false, [0.0, 5.0, 2.0, 6.0]);
            && b.Valid() && q.Valid() && Satisfies(b, q, ContainedBy)
            && Grown(Inner(b, [Leaf(b)])) && Below(Inner(b, [Leaf(b)]), b) && !Hit(Inner(b, [Leaf(b)]), b, q, ContainedBy)
  {
    var b, q := Ndbox(1, true, [1.0]), Ndbox(2, false, [0.0, 5.0, 2.0, 6.0]);
    assert Low(q, 1) == 5.0 && Low(b, 1) == 0.0;
    assert Below([Leaf(b)][0], b);
    SinglePageMisses(b, q);
  }
}
