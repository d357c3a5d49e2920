/**
  Keys of the gist__int_ops index, contrib/intarray/_int_gist.c: a large sorted
  set of integers is stored as a fixed number of ranges.

  A compressed key is described by its cuts: the positions in the input at
  which a new range starts. The gap at position m is x[m] - x[m - 1].
 */
module RangeKeys {

  predicate IsInt32(n: int) {
    -0x8000_0000 <= n < 0x8000_0000
  }

  ghost predicate StrictlyIncreasing(x: seq<int>) {
    forall i, j | 0 <= i < j < |x| :: x[i] < x[j]
  }

  // ----- Cuts

  ghost predicate CutsOk(cuts: seq<nat>, n: nat) {
    && (forall k | 0 <= k < |cuts| :: cuts[k] < n)
    && (forall k, l | 0 <= k < l < |cuts| :: cuts[k] < cuts[l])
  }

  /** The position at which the k-th range ends. */
  function Until(cuts: seq<nat>, k: nat, n: nat): int
    requires k < |cuts|
  {
    if k + 1 < |cuts| then cuts[k + 1] - 1 else n - 1
  }

  /** The ranges as the key stores them: start, end, start, end, ... */
  function Flat(x: seq<int>, cuts: seq<nat>): (f: seq<int>)
    requires CutsOk(cuts, |x|)
    ensures |f| == 2 * |cuts|
  {
    if cuts == [] then [] else [x[cuts[0]], x[Until(cuts, 0, |x|)]] + Flat(x, cuts[1..])
  }

  lemma {:induction false} FlatAt(x: seq<int>, cuts: seq<nat>, k: nat)
    requires CutsOk(cuts, |x|) && k < |cuts|
    ensures 0 <= Until(cuts, k, |x|) < |x|
    ensures Flat(x, cuts)[2 * k] == x[cuts[k]] && Flat(x, cuts)[2 * k + 1] == x[Until(cuts, k, |x|)]
  {
    if k != 0 {
      FlatAt(x, cuts[1..], k - 1);
      assert Until(cuts[1..], k - 1, |x|) == Until(cuts, k, |x|);
    }
  }

  lemma {:induction false} SpliceAfter<T>(h: seq<T>, f: seq<T>, a: nat, b: nat)
    requires a <= |f| && b <= |f|
    ensures h + (f[..a] + f[b..]) == (h + f)[..|h| + a] + (h + f)[|h| + b..]
  {
    assert (h + f)[..|h| + a] == h + f[..a];
    assert (h + f)[|h| + b..] == f[b..];
  }

  lemma {:induction false} CutsWithout(cuts: seq<nat>, q: nat, n: nat)
    requires CutsOk(cuts, n) && 0 < q < |cuts|
    ensures CutsOk(cuts[..q] + cuts[q + 1..], n)
  {
  }

  lemma {:induction false} FlatWithoutSecond(x: seq<int>, cuts: seq<nat>)
    requires CutsOk(cuts, |x|) && 1 < |cuts| && CutsOk([cuts[0]] + cuts[2..], |x|)
    ensures Flat(x, [cuts[0]] + cuts[2..]) == Flat(x, cuts)[..1] + Flat(x, cuts)[3..]
  {
    var tail, rest := cuts[1..], [cuts[0]] + cuts[2..];
    assert rest[1..] == tail[1..] == cuts[2..];
    assert Until(rest, 0, |x|) == Until(tail, 0, |x|);
    var g := Flat(x, cuts[2..]);
    assert Flat(x, rest) == [x[cuts[0]], x[Until(tail, 0, |x|)]] + g;
    assert Flat(x, tail) == [x[tail[0]], x[Until(tail, 0, |x|)]] + g;
    FirstTwo(x[cuts[0]], x[Until(cuts, 0, |x|)], x[tail[0]], x[Until(tail, 0, |x|)], g);
  }

  /** Dropping a cut joins two ranges: two neighbouring entries disappear. */
  lemma {:induction false} FlatWithout(x: seq<int>, cuts: seq<nat>, q: nat, rest: seq<nat>)
    requires CutsOk(cuts, |x|) && CutsOk(rest, |x|) && 0 < q < |cuts| && rest == cuts[..q] + cuts[q + 1..]
    ensures Flat(x, rest) == Flat(x, cuts)[..2 * q - 1] + Flat(x, cuts)[2 * q + 1..]
    decreases q
  {
    if q == 1 {
      assert rest == [cuts[0]] + cuts[2..];
      FlatWithoutSecond(x, cuts);
    } else {
      var tail, more := cuts[1..], rest[1..];
      assert more == tail[..q - 1] + tail[q..] && cuts[..2] == rest[..2] by {
        WithoutTail(cuts, q);
      }
      assert CutsOk(tail, |x|) && CutsOk(more, |x|);
      FlatWithout(x, tail, q - 1, more);
      FlatWithoutLater(x, cuts, rest, Flat(x, tail), 2 * q - 3, 2 * q - 1);
    }
  }

  lemma {:induction false} WithoutTail<T>(s: seq<T>, q: nat)
    requires 1 < q < |s|
    ensures (s[..q] + s[q + 1..])[1..] == s[1..][..q - 1] + s[1..][q..] && (s[..q] + s[q + 1..])[..2] == s[..2]
  {
  }

  lemma {:induction false} FlatWithoutLater(x: seq<int>, cuts: seq<nat>, rest: seq<nat>, f: seq<int>, a: nat, b: nat)
    requires CutsOk(cuts, |x|) && CutsOk(rest, |x|) && |cuts| > 1 && |rest| > 1 && cuts[..2] == rest[..2]
    requires f == Flat(x, cuts[1..]) && a <= |f| && b <= |f| && Flat(x, rest[1..]) == f[..a] + f[b..]
    ensures Flat(x, rest) == Flat(x, cuts)[..a + 2] + Flat(x, cuts)[b + 2..]
  {
    assert cuts[0] == cuts[..2][0] == rest[0] && cuts[1] == cuts[..2][1] == rest[1];
    SpliceAfter([x[cuts[0]], x[Until(cuts, 0, |x|)]], f, a, b);
  }

  lemma {:induction false} FirstTwo<T>(a: T, b: T, c: T, d: T, g: seq<T>)
    ensures var s := [a, b] + ([c, d] + g); s[..1] + s[3..] == [a, d] + g
  {
  }

  function CutSet(cuts: seq<nat>): set<nat> {
    set c | c in cuts
  }

  function Gap(x: seq<int>, m: nat): int
    requires 0 < m < |x|
  {
    x[m] - x[m - 1]
  }

  /**
    The whole input is cut into ranges, no joined gap exceeds tau and no gap
    that is left between ranges is below it.
   */
  ghost predicate CutAt(x: seq<int>, cuts: seq<nat>, tau: int) {
    && CutsOk(cuts, |x|) && cuts != [] && cuts[0] == 0 && 1 <= tau
    && (forall m | 0 < m < |x| && m !in CutSet(cuts) :: Gap(x, m) <= tau)
    && (forall m | 0 < m < |x| && m in CutSet(cuts) :: tau <= Gap(x, m))
  }

  // ----- Which gaps are joined

  /** Gap m is joined rather than gap p: smaller gaps first, of consecutive integers the last, of other equal gaps the first. */
  predicate Rather(x: seq<int>, m: nat, p: nat)
    requires 0 < m < |x| && 0 < p < |x|
  {
    Gap(x, m) < Gap(x, p) || (Gap(x, m) == Gap(x, p) && if Gap(x, m) == 1 then p < m else m < p)
  }

  /** The whole input is cut, and every joined gap is one to be joined rather than any open one. */
  ghost predicate Chosen(x: seq<int>, cuts: seq<nat>) {
    && CutsOk(cuts, |x|) && cuts != [] && cuts[0] == 0
    && forall m, p | 0 < m < |x| && 0 < p < |x| && m !in CutSet(cuts) && p in CutSet(cuts) :: Rather(x, m, p)
  }

  /** No two consecutive integers are cut apart. */
  ghost predicate OpenWide(x: seq<int>, cuts: seq<nat>) {
    forall p | 0 < p < |x| && p in CutSet(cuts) :: Gap(x, p) > 1
  }

  /** Where positions from i + 1 on are cut, consecutive integers are cut apart only left of all joined gaps. */
  ghost predicate RightFirst(x: seq<int>, cuts: seq<nat>, i: int) {
    forall m, p | 0 < m < |x| && 0 < p < |x| && i + 1 < m && m !in CutSet(cuts) && p in CutSet(cuts) :: Gap(x, p) > 1 || p < m
  }

  lemma {:induction false} RunKeepsRightFirst(x: seq<int>, cuts: seq<nat>, i: int, c: nat)
    requires CutFrom(x, cuts, i) && OpenWide(x, cuts) && c <= i && forall m | c < m <= i :: Gap(x, m) <= 1
    ensures RightFirst(x, [c] + cuts, c - 1) && (c == 0 || Gap(x, c) > 1 ==> OpenWide(x, [c] + cuts))
  {
    assert CutSet([c] + cuts) == {c} + CutSet(cuts);
  }

  lemma {:induction false} SpreadKeepsRightFirst(x: seq<int>, cuts: seq<nat>, i: nat)
    requires CutFrom(x, cuts, i) && RightFirst(x, cuts, i)
    ensures RightFirst(x, [i] + cuts, i - 1)
  {
    assert CutSet([i] + cuts) == {i} + CutSet(cuts);
    assert i + 1 < |x| ==> i + 1 in CutSet(cuts) by {
      if i + 1 < |x| {
        assert cuts[0] in CutSet(cuts);
      }
    }
  }

  lemma {:induction false} RunsAreChosen(x: seq<int>, cuts: seq<nat>)
    requires StrictlyIncreasing(x) && |x| > 0 && CutFrom(x, cuts, -1) && RightFirst(x, cuts, -1)
    ensures Chosen(x, cuts)
  {
    assert cuts[0] in CutSet(cuts);
    forall m, p | 0 < m < |x| && 0 < p < |x| && m !in CutSet(cuts) && p in CutSet(cuts) ensures Rather(x, m, p) {
      assert x[m - 1] < x[m] && x[p - 1] < x[p];
    }
  }

  /** Joining the first of the smallest open gaps keeps to that rule, once all consecutive integers are joined. */
  lemma {:induction false} JoinFirst(x: seq<int>, cuts: seq<nat>, q: nat)
    requires Chosen(x, cuts) && OpenWide(x, cuts) && 0 < q < |cuts| && cuts[q] > 0
    requires forall k | 0 < k < |cuts| :: 0 < cuts[k] && Gap(x, cuts[q]) <= Gap(x, cuts[k]) && (k < q ==> Gap(x, cuts[q]) < Gap(x, cuts[k]))
    ensures Chosen(x, cuts[..q] + cuts[q + 1..]) && OpenWide(x, cuts[..q] + cuts[q + 1..])
  {
    var rest, c := cuts[..q] + cuts[q + 1..], cuts[q];
    CutsWithout(cuts, q, |x|);
    assert c in CutSet(cuts);
    assert CutSet(rest) == CutSet(cuts) - {c};
    forall p | 0 < p < |x| && p in CutSet(rest) ensures Rather(x, c, p) {
      var k :| 0 <= k < |cuts| && cuts[k] == p;
      assert Gap(x, c) > 1;
    }
  }

  lemma {:induction false} RatherOneWay(x: seq<int>, m: nat, p: nat)
    requires 0 < m < |x| && 0 < p < |x| && Rather(x, m, p)
    ensures !Rather(x, p, m)
  {
  }

  /** The rule leaves no choice: cuts into equally many ranges that follow it are the same. */
  lemma {:induction false} ChosenIsUnique(x: seq<int>, a: seq<nat>, b: seq<nat>)
    requires Chosen(x, a) && Chosen(x, b) && |a| == |b|
    ensures a == b
  {
    CutSetSize(a, |x|);
    CutSetSize(b, |x|);
    if CutSet(a) != CutSet(b) {
      var p, m := OneEach(CutSet(a), CutSet(b));
      RatherOneWay(x, m, p);
      assert false;
    }
    SameCuts(a, b, |x|);
  }

  /** Different sets of one size: something is only in the one, and something only in the other. */
  lemma {:induction false} OneEach(s: set<nat>, t: set<nat>) returns (p: nat, m: nat)
    requires |s| == |t| && s != t
    ensures p in s && p !in t && m in t && m !in s
  {
    if s <= t {
      SmallerSet(s, t);
      assert false;
    }
    if t <= s {
      SmallerSet(t, s);
      assert false;
    }
    p :| p in s && p !in t;
    m :| m in t && m !in s;
  }

  lemma {:induction false} SmallerSet(s: set<nat>, t: set<nat>)
    requires s <= t && s != t
    ensures |s| < |t|
  {
    var x :| x in t && x !in s;
    var u := t - {x};
    assert s <= u;
    SubsetSize(s, u);
  }

  lemma {:induction false} CutSetSize(cuts: seq<nat>, n: nat)
    requires CutsOk(cuts, n)
    ensures |CutSet(cuts)| == |cuts|
  {
    if cuts != [] {
      var k := |cuts| - 1;
      CutSetSize(cuts[..k], n);
      assert CutSet(cuts) == CutSet(cuts[..k]) + {cuts[k]};
      assert cuts[k] !in CutSet(cuts[..k]);
    }
  }

  lemma {:induction false} SameCuts(a: seq<nat>, b: seq<nat>, n: nat)
    requires CutsOk(a, n) && CutsOk(b, n) && CutSet(a) == CutSet(b) && |a| == |b|
    ensures a == b
  {
    if a != [] {
      var k := |a| - 1;
      assert a[k] in CutSet(b) && b[k] in CutSet(a);
      var i :| 0 <= i <= k && b[i] == a[k];
      var j :| 0 <= j <= k && a[j] == b[k];
      assert a[k] == b[k];
      assert CutSet(a[..k]) == CutSet(a) - {a[k]} && CutSet(b[..k]) == CutSet(b) - {b[k]};
      SameCuts(a[..k], b[..k], n);
      assert a == a[..k] + [a[k]] && b == b[..k] + [b[k]];
    }
  }

  // ----- Covering

  datatype Range = Range(lo: int, hi: int)

  function Interval(lo: int, hi: int): (s: set<int>)
    ensures forall z :: z in s <==> lo <= z <= hi
    ensures |s| == if lo <= hi then hi - lo + 1 else 0
    decreases hi - lo
  {
    if hi < lo then {} else Interval(lo, hi - 1) + {hi}
  }

  function Covered(f: seq<Range>): set<int> {
    if f == [] then {} else Covered(f[..|f| - 1]) + Interval(f[|f| - 1].lo, f[|f| - 1].hi)
  }

  /** The ranges of a flat key. */
  function RangesOf(flat: seq<int>): seq<Range>
    requires |flat| % 2 == 0
  {
    seq(|flat| / 2, k requires 0 <= k < |flat| / 2 => Range(flat[2 * k], flat[2 * k + 1]))
  }

  lemma {:induction false} CoveredHas(f: seq<Range>, z: int)
    ensures z in Covered(f) <==> exists k :: 0 <= k < |f| && f[k].lo <= z <= f[k].hi
  {
    if f != [] {
      CoveredHas(f[..|f| - 1], z);
      if z in Covered(f[..|f| - 1]) {
        var k :| 0 <= k < |f| - 1 && f[..|f| - 1][k].lo <= z <= f[..|f| - 1][k].hi;
        assert f[k].lo <= z <= f[k].hi;
      }
      if k :| 0 <= k < |f| && f[k].lo <= z <= f[k].hi {
        assert k < |f| - 1 ==> f[..|f| - 1][k] == f[k];
      }
    }
  }

  // ----- How much a choice of gaps saves

  /** The integers saved by leaving the gaps at positions below m that are in keep uncovered. */
  function Saved(x: seq<int>, keep: set<nat>, m: nat): int
    requires m <= |x|
  {
    if m <= 1 then 0 else Saved(x, keep, m - 1) + (if m - 1 in keep then Gap(x, m - 1) - 1 else 0)
  }

  function Count(keep: set<nat>, m: nat): nat {
    if m <= 1 then 0 else Count(keep, m - 1) + (if m - 1 in keep then 1 else 0)
  }

  /** Exchange argument: against gaps of at least tau, each other choice pays at most tau per gap. */
  lemma {:induction false} Exchange(x: seq<int>, other: set<nat>, kept: set<nat>, tau: int, m: nat)
    requires m <= |x| && 1 <= tau
    requires forall i | 0 < i < |x| && i !in kept :: Gap(x, i) <= tau
    requires forall i | 0 < i < |x| && i in kept :: tau <= Gap(x, i)
    ensures Saved(x, other, m) - Saved(x, kept, m) <= (tau - 1) * (Count(other, m) - Count(kept, m))
  {
    if m > 1 {
      Exchange(x, other, kept, tau, m - 1);
      var d := Count(other, m - 1) - Count(kept, m - 1);
      var i := m - 1;
      assert (tau - 1) * (d + 1) == (tau - 1) * d + (tau - 1);
      assert (tau - 1) * (d - 1) == (tau - 1) * d - (tau - 1);
    }
  }

  lemma {:induction false} LargestGapsSaveMost(x: seq<int>, other: set<nat>, kept: set<nat>, tau: int, m: nat)
    requires m <= |x| && 1 <= tau && Count(other, m) <= Count(kept, m)
    requires forall i | 0 < i < |x| && i !in kept :: Gap(x, i) <= tau
    requires forall i | 0 < i < |x| && i in kept :: tau <= Gap(x, i)
    ensures Saved(x, other, m) <= Saved(x, kept, m)
  {
    Exchange(x, other, kept, tau, m);
    NonPositive(tau - 1, Count(other, m) - Count(kept, m));
  }

  /** The part of a set up to the m-th input. */
  function UpTo(x: seq<int>, s: set<int>, m: nat): set<int>
    requires 0 < m <= |x|
  {
    s * Interval(x[0], x[m - 1])
  }

  lemma {:induction false} NextPart(x: seq<int>, s: set<int>, m: nat)
    requires StrictlyIncreasing(x) && 0 < m < |x|
    ensures |UpTo(x, s, m + 1)| == |UpTo(x, s, m)| + |s * GapSet(x, m)|
  {
    var a, b := UpTo(x, s, m), s * GapSet(x, m);
    assert UpTo(x, s, m + 1) == a + b && a !! b;
  }

  /** The integers after one input up to and including the next. */
  function GapSet(x: seq<int>, i: nat): set<int>
    requires 0 < i < |x|
  {
    Interval(x[i - 1] + 1, x[i])
  }

  ghost predicate Filled(x: seq<int>, s: set<int>, i: nat)
    requires 0 < i < |x|
  {
    GapSet(x, i) <= s
  }

  ghost predicate Empty(x: seq<int>, s: set<int>, i: nat)
    requires 0 < i < |x|
  {
    s * GapSet(x, i) == {x[i]}
  }

  ghost predicate HasInputs(x: seq<int>, s: set<int>) {
    forall i | 0 <= i < |x| :: x[i] in s
  }

  /** A set that holds every input and fills every gap outside holes has at least this many members. */
  lemma {:induction false} SizeAtLeast(x: seq<int>, s: set<int>, holes: set<nat>, m: nat)
    requires StrictlyIncreasing(x) && 0 < m <= |x| && HasInputs(x, s)
    requires forall i | 0 < i < |x| && i !in holes :: Filled(x, s, i)
    ensures |UpTo(x, s, m)| >= x[m - 1] - x[0] + 1 - Saved(x, holes, m)
  {
    if m == 1 {
      assert UpTo(x, s, 1) == {x[0]};
    } else {
      SizeAtLeast(x, s, holes, m - 1);
      NextPart(x, s, m - 1);
      FilledSize(x, s, m - 1, m - 1 in holes);
    }
  }

  lemma {:induction false} FilledSize(x: seq<int>, s: set<int>, i: nat, hole: bool)
    requires StrictlyIncreasing(x) && 0 < i < |x| && x[i] in s && (!hole ==> Filled(x, s, i))
    ensures |s * GapSet(x, i)| >= if hole then 1 else Gap(x, i)
    ensures !hole ==> |s * GapSet(x, i)| == Gap(x, i)
  {
    if hole {
      SubsetSize({x[i]}, s * GapSet(x, i));
    } else {
      assert s * GapSet(x, i) == GapSet(x, i);
    }
  }

  /** If it leaves the holes empty, it has exactly that many. */
  lemma {:induction false} SizeExactly(x: seq<int>, s: set<int>, holes: set<nat>, m: nat)
    requires StrictlyIncreasing(x) && 0 < m <= |x| && HasInputs(x, s)
    requires forall i | 0 < i < |x| && i !in holes :: Filled(x, s, i)
    requires forall i | 0 < i < |x| && i in holes :: Empty(x, s, i)
    ensures |UpTo(x, s, m)| == x[m - 1] - x[0] + 1 - Saved(x, holes, m)
  {
    if m == 1 {
      assert UpTo(x, s, 1) == {x[0]};
    } else {
      SizeExactly(x, s, holes, m - 1);
      NextPart(x, s, m - 1);
      if m - 1 !in holes {
        FilledSize(x, s, m - 1, false);
      }
    }
  }

  lemma {:induction false} SubsetSize<T>(a: set<T>, b: set<T>)
    requires a <= b
    ensures |a| <= |b|
  {
    assert b == a + (b - a);
  }

  // ----- Any cover by few ranges leaves few gaps

  /** The gaps that the set does not fill. */
  ghost function Holes(x: seq<int>, s: set<int>): set<nat> {
    set i | 0 < i < |x| && !Filled(x, s, i)
  }

  /** The ranges that hold one of the first m inputs. */
  ghost function Used(x: seq<int>, f: seq<Range>, m: nat): set<nat>
    requires m <= |x|
  {
    set k, i | 0 <= k < |f| && 0 <= i < m && f[k].lo <= x[i] <= f[k].hi :: k
  }

  /** A range that holds two inputs fills the gaps between them. */
  lemma {:induction false} RangeFills(x: seq<int>, f: seq<Range>, k: nat, i: nat, m: nat)
    requires StrictlyIncreasing(x) && k < |f| && i < m < |x|
    requires f[k].lo <= x[i] && x[m] <= f[k].hi
    ensures Filled(x, Covered(f), m)
  {
    assert x[i] <= x[m - 1];
    forall z | z in GapSet(x, m) ensures z in Covered(f) {
      assert f[k].lo <= z <= f[k].hi;
      CoveredHas(f, z);
    }
  }

  /** Each hole needs a further range. */
  lemma {:induction false} HolesNeedRanges(x: seq<int>, f: seq<Range>, s: set<int>, holes: set<nat>, m: nat)
    requires StrictlyIncreasing(x) && 0 < m <= |x| && s == Covered(f) && HasInputs(x, s)
    requires forall i | i in holes :: 0 < i < |x| && !Filled(x, s, i)
    ensures Count(holes, m) + 1 <= |Used(x, f, m)|
  {
    var k := CoveringRange(f, x[m - 1]);
    UsedGrows(x, f, k, m);
    if 1 < m {
      HolesNeedRanges(x, f, s, holes, m - 1);
      if m - 1 in holes {
        NewRange(x, f, k, m - 1);
      }
    }
  }

  lemma {:induction false} UsedGrows(x: seq<int>, f: seq<Range>, k: nat, m: nat)
    requires 0 < m <= |x| && k < |f| && f[k].lo <= x[m - 1] <= f[k].hi
    ensures |Used(x, f, m - 1)| + (if k in Used(x, f, m - 1) then 0 else 1) <= |Used(x, f, m)|
  {
    var before, after := Used(x, f, m - 1), Used(x, f, m);
    assert before <= after && k in after;
    if k in before {
      SubsetSize(before, after);
    } else {
      assert |before + {k}| == |before| + 1;
      SubsetSize(before + {k}, after);
    }
  }

  lemma {:induction false} NewRange(x: seq<int>, f: seq<Range>, k: nat, m: nat)
    requires StrictlyIncreasing(x) && k < |f| && 0 < m < |x| && !Filled(x, Covered(f), m) && x[m] <= f[k].hi
    ensures k !in Used(x, f, m)
  {
    if i :| 0 <= i < m && f[k].lo <= x[i] <= f[k].hi {
      RangeFills(x, f, k, i, m);
    }
  }

  lemma {:induction false} CoveringRange(f: seq<Range>, z: int) returns (k: nat)
    requires z in Covered(f)
    ensures k < |f| && f[k].lo <= z <= f[k].hi
  {
    CoveredHas(f, z);
    k :| 0 <= k < |f| && f[k].lo <= z <= f[k].hi;
  }

  ghost function Below(n: nat): (s: set<nat>)
    ensures |s| == n && forall k: nat :: k in s <==> k < n
  {
    if n == 0 then {} else Below(n - 1) + {n - 1}
  }

  /** A cover by r ranges leaves at most r - 1 gaps open. */
  lemma {:induction false} FewHoles(x: seq<int>, f: seq<Range>)
    requires StrictlyIncreasing(x) && 0 < |x| && HasInputs(x, Covered(f))
    ensures Count(Holes(x, Covered(f)), |x|) + 1 <= |f|
  {
    HolesNeedRanges(x, f, Covered(f), Holes(x, Covered(f)), |x|);
    SubsetSize(Used(x, f, |x|), Below(|f|));
  }

  // ----- What the cuts cover

  /** The set of integers in the ranges of a cut. */
  function KeySet(x: seq<int>, cuts: seq<nat>): set<int>
    requires CutsOk(cuts, |x|)
  {
    Covered(RangesOf(Flat(x, cuts)))
  }

  /** z lies in the k-th range of the cut. */
  ghost predicate InRange(x: seq<int>, cuts: seq<nat>, k: nat, z: int)
    requires CutsOk(cuts, |x|) && k < |cuts|
  {
    0 <= Until(cuts, k, |x|) < |x| && x[cuts[k]] <= z <= x[Until(cuts, k, |x|)]
  }

  lemma {:induction false} KeySetHas(x: seq<int>, cuts: seq<nat>, k: nat, z: int)
    requires CutsOk(cuts, |x|) && k < |cuts| && InRange(x, cuts, k, z)
    ensures z in KeySet(x, cuts)
  {
    var f := RangesOf(Flat(x, cuts));
    FlatAt(x, cuts, k);
    assert f[k].lo <= z <= f[k].hi;
    CoveredHas(f, z);
  }

  lemma {:induction false} KeySetRange(x: seq<int>, cuts: seq<nat>, z: int) returns (k: nat)
    requires CutsOk(cuts, |x|) && z in KeySet(x, cuts)
    ensures k < |cuts| && InRange(x, cuts, k, z)
  {
    k := CoveringRange(RangesOf(Flat(x, cuts)), z);
    FlatRange(x, cuts, k);
  }

  lemma {:induction false} FlatRange(x: seq<int>, cuts: seq<nat>, k: nat)
    requires CutsOk(cuts, |x|) && k < |RangesOf(Flat(x, cuts))|
    ensures k < |cuts| && 0 <= Until(cuts, k, |x|) < |x| && RangesOf(Flat(x, cuts))[k] == Range(x[cuts[k]], x[Until(cuts, k, |x|)])
  {
    RangesAt(Flat(x, cuts), k);
    FlatAt(x, cuts, k);
  }

  lemma {:induction false} RangesAt(a: seq<int>, k: nat)
    requires |a| % 2 == 0 && k < |RangesOf(a)|
    ensures 2 * k + 1 < |a| && RangesOf(a)[k] == Range(a[2 * k], a[2 * k + 1])
  {
  }

  /** The range that the i-th input belongs to. */
  lemma {:induction false} CutOf(cuts: seq<nat>, i: nat, n: nat) returns (k: nat)
    requires CutsOk(cuts, n) && cuts != [] && cuts[0] == 0 && i < n
    ensures k < |cuts| && cuts[k] <= i <= Until(cuts, k, n)
  {
    k := 0;
    while k + 1 < |cuts| && cuts[k + 1] <= i
      invariant k < |cuts| && cuts[k] <= i
      decreases |cuts| - k
    {
      k := k + 1;
    }
  }

  lemma {:induction false} Increasing(x: seq<int>, i: int, j: int)
    requires StrictlyIncreasing(x) && 0 <= i <= j < |x|
    ensures x[i] <= x[j]
  {
  }

  /** The key holds the input, fills the joined gaps, and nothing of the others. */
  lemma {:induction false} KeySetShape(x: seq<int>, cuts: seq<nat>)
    requires StrictlyIncreasing(x) && 0 < |x| && CutsOk(cuts, |x|) && cuts != [] && cuts[0] == 0
    ensures HasInputs(x, KeySet(x, cuts))
    ensures forall i | 0 < i < |x| && i !in CutSet(cuts) :: Filled(x, KeySet(x, cuts), i)
    ensures forall i | 0 < i < |x| && i in CutSet(cuts) :: Empty(x, KeySet(x, cuts), i)
    ensures UpTo(x, KeySet(x, cuts), |x|) == KeySet(x, cuts)
  {
    forall i | 0 <= i < |x| ensures x[i] in KeySet(x, cuts) {
      InputIsKept(x, cuts, i);
    }
    forall i | 0 < i < |x| && i !in CutSet(cuts) ensures Filled(x, KeySet(x, cuts), i) {
      JoinedIsFilled(x, cuts, i);
    }
    forall i | 0 < i < |x| && i in CutSet(cuts) ensures Empty(x, KeySet(x, cuts), i) {
      InputIsKept(x, cuts, i);
      CutIsEmpty(x, cuts, i);
    }
    forall z | z in KeySet(x, cuts) ensures z in Interval(x[0], x[|x| - 1]) {
      var k := KeySetRange(x, cuts, z);
      Increasing(x, 0, cuts[k]);
      Increasing(x, Until(cuts, k, |x|), |x| - 1);
    }
  }

  lemma {:induction false} InputIsKept(x: seq<int>, cuts: seq<nat>, i: nat)
    requires StrictlyIncreasing(x) && i < |x| && CutsOk(cuts, |x|) && cuts != [] && cuts[0] == 0
    ensures x[i] in KeySet(x, cuts)
  {
    var k := CutOf(cuts, i, |x|);
    FlatAt(x, cuts, k);
    Increasing(x, cuts[k], i);
    Increasing(x, i, Until(cuts, k, |x|));
    KeySetHas(x, cuts, k, x[i]);
  }

  lemma {:induction false} JoinedIsFilled(x: seq<int>, cuts: seq<nat>, i: nat)
    requires StrictlyIncreasing(x) && 0 < i < |x| && i !in CutSet(cuts) && CutsOk(cuts, |x|) && cuts != [] && cuts[0] == 0
    ensures Filled(x, KeySet(x, cuts), i)
  {
    var k := CutOf(cuts, i, |x|);
    assert cuts[k] in CutSet(cuts);
    FlatAt(x, cuts, k);
    Increasing(x, cuts[k], i - 1);
    Increasing(x, i, Until(cuts, k, |x|));
    KeySetHasRange(x, cuts, k, i);
  }

  lemma {:induction false} KeySetHasRange(x: seq<int>, cuts: seq<nat>, k: nat, i: nat)
    requires CutsOk(cuts, |x|) && k < |cuts| && 0 < i < |x| && 0 <= Until(cuts, k, |x|) < |x|
    requires x[cuts[k]] <= x[i - 1] && x[i] <= x[Until(cuts, k, |x|)]
    ensures Filled(x, KeySet(x, cuts), i)
  {
    forall z | z in GapSet(x, i) ensures z in KeySet(x, cuts) {
      KeySetHas(x, cuts, k, z);
    }
  }

  lemma {:induction false} CutIsEmpty(x: seq<int>, cuts: seq<nat>, i: nat)
    requires StrictlyIncreasing(x) && 0 < i < |x| && i in CutSet(cuts) && CutsOk(cuts, |x|)
    requires x[i] in KeySet(x, cuts)
    ensures Empty(x, KeySet(x, cuts), i)
  {
    var q :| 0 <= q < |cuts| && cuts[q] == i;
    forall z | z in KeySet(x, cuts) * GapSet(x, i) ensures z == x[i] {
      CutExcludes(x, cuts, q, z);
    }
  }

  lemma {:induction false} CutExcludes(x: seq<int>, cuts: seq<nat>, q: nat, z: int)
    requires StrictlyIncreasing(x) && CutsOk(cuts, |x|) && q < |cuts| && 0 < cuts[q]
    requires z in KeySet(x, cuts) && x[cuts[q] - 1] < z <= x[cuts[q]]
    ensures z == x[cuts[q]]
  {
    var k := KeySetRange(x, cuts, z);
    if k < q {
      Increasing(x, Until(cuts, k, |x|), cuts[q] - 1);
    } else {
      Increasing(x, cuts[q], cuts[k]);
    }
  }

  /** Counting the cuts below m. */
  lemma {:induction false} CountCuts(cuts: seq<nat>, n: nat, m: nat) returns (j: nat)
    requires CutsOk(cuts, n) && cuts != [] && cuts[0] == 0 && 0 < m
    ensures j <= |cuts| && Count(CutSet(cuts), m) + 1 == j
    ensures (forall k | 0 <= k < j :: cuts[k] < m) && (j < |cuts| ==> m <= cuts[j])
  {
    if m == 1 {
      j := 1;
    } else {
      j := CountCuts(cuts, n, m - 1);
      if m - 1 in CutSet(cuts) {
        assert m - 1 == cuts[j] by {
          var k :| 0 <= k < |cuts| && cuts[k] == m - 1;
        }
        j := j + 1;
      }
    }
  }

  function Span(x: seq<int>): int
    requires 0 < |x|
  {
    x[|x| - 1] - x[0] + 1
  }

  lemma {:induction false} KeySize(x: seq<int>, cuts: seq<nat>)
    requires StrictlyIncreasing(x) && 0 < |x| && CutsOk(cuts, |x|) && cuts != [] && cuts[0] == 0
    ensures |KeySet(x, cuts)| == Span(x) - Saved(x, CutSet(cuts), |x|)
  {
    KeySetShape(x, cuts);
    SizeExactly(x, KeySet(x, cuts), CutSet(cuts), |x|);
  }

  lemma {:induction false} CountAllCuts(cuts: seq<nat>, n: nat)
    requires CutsOk(cuts, n) && cuts != [] && cuts[0] == 0
    ensures Count(CutSet(cuts), n) + 1 == |cuts|
  {
    var j := CountCuts(cuts, n, n);
  }

  lemma {:induction false} CoverSize(x: seq<int>, f: seq<Range>) returns (holes: set<nat>)
    requires StrictlyIncreasing(x) && 0 < |x| && HasInputs(x, Covered(f))
    ensures |Covered(f)| >= Span(x) - Saved(x, holes, |x|) && Count(holes, |x|) + 1 <= |f|
  {
    holes := Holes(x, Covered(f));
    FewHoles(x, f);
    SizeAtLeast(x, Covered(f), holes, |x|);
    SubsetSize(UpTo(x, Covered(f), |x|), Covered(f));
  }

  /**
    No cover of the input by as many ranges has fewer members than a key whose
    joined gaps are all at most tau and whose open gaps are all at least tau.
   */
  lemma {:induction false} CutIsOptimal(x: seq<int>, cuts: seq<nat>, tau: int, f: seq<Range>)
    requires StrictlyIncreasing(x) && 0 < |x| && CutAt(x, cuts, tau)
    requires |f| <= |cuts| && HasInputs(x, Covered(f))
    ensures |KeySet(x, cuts)| <= |Covered(f)|
  {
    var kept, n := CutSet(cuts), |x|;
    KeySize(x, cuts);
    CountAllCuts(cuts, n);
    var holes := CoverSize(x, f);
    LargestGapsSaveMost(x, holes, kept, tau, n);
  }

  lemma {:induction false} NonPositive(a: int, b: int)
    requires 0 <= a && b <= 0
    ensures a * b <= 0
  {
  }

  // ----- g_int_compress

  /** memmove towards lower addresses. */
  method MoveDown(a: array<int>, dst: nat, src: nat, count: nat)
    requires dst <= src && src + count <= a.Length
    modifies a
    ensures forall k | 0 <= k < dst :: a[k] == old(a[k])
    ensures a[dst..dst + count] == old(a[src..src + count])
  {
    ghost var was := a[..];
    for k := 0 to count
      invariant forall p | 0 <= p < dst :: a[p] == was[p]
      invariant forall p | dst <= p < dst + k :: a[p] == was[p + (src - dst)]
      invariant forall p | dst + k <= p < a.Length :: a[p] == was[p]
    {
      a[dst + k] := a[src + k];
    }
    assert a[dst..dst + count] == was[src..src + count];
  }

  /** Positions from i + 1 on are cut; within a range all neighbours are consecutive integers. */
  ghost predicate CutFrom(x: seq<int>, cuts: seq<nat>, i: int) {
    && -1 <= i < |x| && CutsOk(cuts, |x|) && (cuts == [] <==> i == |x| - 1) && (cuts != [] ==> cuts[0] == i + 1)
    && forall m | i + 1 < m < |x| && m !in CutSet(cuts) :: Gap(x, m) <= 1
  }

  lemma {:induction false} PrependCut(x: seq<int>, cuts: seq<nat>, i: int, c: nat)
    requires CutFrom(x, cuts, i) && c <= i && forall m | c < m <= i :: Gap(x, m) <= 1
    ensures CutFrom(x, [c] + cuts, c - 1)
    ensures Flat(x, [c] + cuts) == [x[c], x[i]] + Flat(x, cuts)
  {
    var cuts' := [c] + cuts;
    assert cuts'[1..] == cuts;
    assert CutsOk(cuts', |x|);
    assert Until(cuts', 0, |x|) == i;
    forall m | c < m < |x| && m !in CutSet(cuts') ensures Gap(x, m) <= 1 {
      assert i + 1 < |x| ==> cuts'[1] == i + 1;
    }
  }

  /**
    The array in the middle of the first phase: inputs up to i are still to be
    read, and from the range slot j + 1 on it holds the ranges of the rest.
   */
  ghost predicate Staged(a: seq<int>, x: seq<int>, cuts: seq<nat>, i: int, j: int) {
    && |a| == 2 * |x| && -1 <= i <= j < |x| && CutFrom(x, cuts, i) && |cuts| == |x| - 1 - j
    && (forall k | 0 <= k <= i :: a[k] == x[k])
    && a[2 * (j + 1)..] == Flat(x, cuts)
  }

  /** A range over the inputs c to i is written into slot j; it overwrites nothing that is still to be read. */
  method Store(dr: array<int>, c: nat, i: nat, j: nat, lo: int, hi: int, ghost x: seq<int>, ghost cuts: seq<nat>)
    requires Staged(dr[..], x, cuts, i, j) && c <= i && lo == x[c] && hi == x[i]
    requires forall m | c < m <= i :: Gap(x, m) <= 1
    modifies dr
    ensures Staged(dr[..], x, [c] + cuts, c - 1, j - 1)
  {
    ghost var was := dr[..];
    dr[2 * j + 1] := hi;
    dr[2 * j] := lo;
    PrependCut(x, cuts, i, c);
    assert dr[..][2 * j..] == [lo, hi] + was[2 * (j + 1)..];
  }

  /** How far down from i a run of consecutive integers goes, with at most lenr joins. */
  method RunStart(dr: array<int>, i: nat, lenr: nat, ghost x: seq<int>) returns (c: nat, rStart: int, lenr': nat)
    requires i < dr.Length && i < |x| && forall k | 0 <= k <= i :: dr[k] == x[k]
    ensures c <= i && rStart == x[c] && lenr - lenr' == i - c
    ensures forall m | c < m <= i :: Gap(x, m) <= 1
    ensures c == 0 || lenr' == 0 || Gap(x, c) != 1
  {
    c, rStart, lenr' := i, dr[i], lenr;
    while c > 0 && lenr' > 0 && dr[c - 1] == rStart - 1
      invariant c <= i && rStart == x[c] && lenr - lenr' == i - c
      invariant forall m | c < m <= i :: Gap(x, m) <= 1
    {
      rStart, c, lenr' := rStart - 1, c - 1, lenr' - 1;
    }
  }

  /**
    The first phase: from the end, runs of consecutive integers become one
    range each, as long as there are ranges to spare; the rest are ranges of
    one. Ranges overwrite the array from its far end.
   */
  method JoinRuns(dr: array<int>, n: nat, r: nat, ghost x: seq<int>) returns (len: nat, ghost cuts: seq<nat>)
    requires 0 < r < n && dr.Length == 2 * n && |x| == n && dr[..n] == x && StrictlyIncreasing(x)
    modifies dr
    ensures CutFrom(x, cuts, -1) && r <= |cuts| && len == 2 * |cuts| <= dr.Length && dr[..len] == Flat(x, cuts)
    ensures Chosen(x, cuts) && (r < |cuts| ==> OpenWide(x, cuts))
  {
    var i: int, j: int, lenr: int := n - 1, n - 1, n - r;
    cuts := [];
    assert forall k | 0 <= k < n :: dr[..][k] == dr[..n][k];
    while i > 0 && lenr > 0
      invariant Staged(dr[..], x, cuts, i, j) && 0 <= lenr == n - r - (j - i)
      invariant RightFirst(x, cuts, i) && (lenr > 0 ==> OpenWide(x, cuts))
      decreases i
    {
      var rEnd := dr[i];
      assert forall k | 0 <= k <= i :: dr[k] == dr[..][k];
      var c, rStart, lenr' := RunStart(dr, i, lenr, x);
      RunKeepsRightFirst(x, cuts, i, c);
      assert c > 0 ==> x[c - 1] < x[c];
      Store(dr, c, i, j, rStart, rEnd, x, cuts);
      cuts := [c] + cuts;
      i, j, lenr := (c as int) - 1, j - 1, lenr';
    }
    j, cuts := SpreadRest(dr, n, i, j, x, cuts);
    len := ShuntDown(dr, n, j);
    RunsAreChosen(x, cuts);
  }

  /** What is left on the left becomes ranges of one element each. */
  method SpreadRest(dr: array<int>, n: nat, i0: int, j0: int, ghost x: seq<int>, ghost cuts0: seq<nat>) returns (j: int, ghost cuts: seq<nat>)
    requires dr.Length == 2 * n && |x| == n && Staged(dr[..], x, cuts0, i0, j0) && RightFirst(x, cuts0, i0)
    modifies dr
    ensures Staged(dr[..], x, cuts, -1, j - 1) && j - 1 == j0 - (i0 + 1) && RightFirst(x, cuts, -1)
    ensures i0 <= 0 && OpenWide(x, cuts0) ==> OpenWide(x, cuts)
  {
    var i := i0;
    j, cuts := j0, cuts0;
    while i >= 0
      invariant Staged(dr[..], x, cuts, i, j) && j - i == j0 - i0 && RightFirst(x, cuts, i)
      invariant i0 <= 0 && OpenWide(x, cuts0) ==> OpenWide(x, cuts)
      decreases i
    {
      assert dr[..][i] == dr[i];
      SpreadKeepsRightFirst(x, cuts, i);
      Store(dr, i, i, j, dr[i], dr[i], x, cuts);
      cuts := [i] + cuts;
      i, j := i - 1, j - 1;
    }
    j := j + 1;
  }

  /** Everything is moved down to start at the right place. */
  method ShuntDown(dr: array<int>, n: nat, j: nat) returns (len: nat)
    requires j <= n && dr.Length == 2 * n
    modifies dr
    ensures len == 2 * (n - j) && dr[..len] == old(dr[..][2 * j..])
  {
    len := 2 * (n - j);
    assert dr[..][2 * j..] == dr[2 * j..2 * j + len];
    if j != 0 {
      MoveDown(dr, 0, 2 * j, len);
    }
    assert dr[..len] == dr[0..0 + len];
  }

  /** The first of the smallest gaps between ranges. */
  method SmallestGap(dr: array<int>, len: nat, ghost f: seq<int>) returns (cand: nat, ghost q: nat)
    requires 4 <= len <= dr.Length && len % 2 == 0 && dr[..len] == f && forall k | 0 <= k < len :: IsInt32(f[k])
    ensures cand == 2 * q && 0 < q < len / 2 && FirstSmallest(f, q)
  {
    var min := 0x7fff_ffff_ffff_ffff;
    cand, q := 1, 0;
    var i := 2;
    ghost var n := 1;
    while i < len
      invariant i == 2 * n <= len && dr[..len] == f
      invariant n == 1 ==> min == 0x7fff_ffff_ffff_ffff
      invariant 1 < n ==> 0 < q < n && cand == 2 * q && min == GapAt(f, q)
      invariant forall k | 0 < k < n :: min <= GapAt(f, k)
      invariant forall k | 0 < k < q && k < n :: min < GapAt(f, k)
    {
      var gap := dr[i] - dr[i - 1];
      assert gap == GapAt(f, n) < 0x7fff_ffff_ffff_ffff by {
        assert dr[i] == f[i] && dr[i - 1] == f[i - 1];
      }
      if min > gap {
        min, cand, q := gap, i, n;
      }
      i, n := i + 2, n + 1;
    }
  }

  /** The gap before range k of the entries. */
  function GapAt(f: seq<int>, k: nat): int
    requires 0 < k && 2 * k < |f|
  {
    f[2 * k] - f[2 * k - 1]
  }

  /** No gap of the entries is smaller than gap q, and those before it are larger. */
  ghost predicate FirstSmallest(f: seq<int>, q: nat) {
    0 < q && 2 * q < |f| && forall k | 0 < k && 2 * k < |f| :: GapAt(f, q) <= GapAt(f, k) && (k < q ==> GapAt(f, q) < GapAt(f, k))
  }

  /** Joining the two ranges around a smallest gap keeps the joined gaps below the open ones. */
  lemma {:induction false} JoinSmallest(x: seq<int>, cuts: seq<nat>, tau: int, q: nat)
    requires CutAt(x, cuts, tau) && 0 < q < |cuts|
    requires forall k | 0 < k < |cuts| :: Gap(x, cuts[q]) <= Gap(x, cuts[k])
    ensures CutAt(x, cuts[..q] + cuts[q + 1..], Gap(x, cuts[q]))
  {
    var cuts' := cuts[..q] + cuts[q + 1..];
    var g := Gap(x, cuts[q]);
    CutsWithout(cuts, q, |x|);
    assert cuts[q] in CutSet(cuts);
    assert CutSet(cuts') == CutSet(cuts) - {cuts[q]};
    forall m | 0 < m < |x| && m in CutSet(cuts') ensures g <= Gap(x, m) {
      var k :| 0 <= k < |cuts| && cuts[k] == m;
    }
  }

  // ----- Sizes

  /** Ranges in order, none empty, none touching. */
  ghost predicate Apart(f: seq<Range>) {
    && (forall k | 0 <= k < |f| :: f[k].lo <= f[k].hi)
    && (forall k, l | 0 <= k < l < |f| :: f[k].hi < f[l].lo)
  }

  function Total(f: seq<Range>): int {
    if f == [] then 0 else Total(f[..|f| - 1]) + (f[|f| - 1].hi - f[|f| - 1].lo + 1)
  }

  lemma {:induction false} TotalIsSize(f: seq<Range>)
    requires Apart(f)
    ensures |Covered(f)| == Total(f)
  {
    if f != [] {
      var g, last := f[..|f| - 1], f[|f| - 1];
      TotalIsSize(g);
      forall z | z in Covered(g) ensures z < last.lo {
        var k := CoveringRange(g, z);
        assert f[k] == g[k];
      }
      assert Covered(g) !! Interval(last.lo, last.hi);
    }
  }

  lemma {:induction false} CutsAreApart(x: seq<int>, cuts: seq<nat>)
    requires StrictlyIncreasing(x) && CutsOk(cuts, |x|)
    ensures Apart(RangesOf(Flat(x, cuts)))
  {
    var f := RangesOf(Flat(x, cuts));
    forall k | 0 <= k < |f| ensures f[k].lo <= f[k].hi {
      FlatAt(x, cuts, k);
      Increasing(x, cuts[k], Until(cuts, k, |x|));
    }
    forall k, l | 0 <= k < l < |f| ensures f[k].hi < f[l].lo {
      FlatAt(x, cuts, k);
      FlatAt(x, cuts, l);
      assert Until(cuts, k, |x|) < cuts[l];
    }
  }

  /** The ranges but for those that start where the one before them ends: they repeat it. */
  function Fresh(f: seq<Range>): seq<Range> {
    if f == [] then []
    else
      var n := |f| - 1;
      if 0 < n && f[n].lo == f[n - 1].hi then Fresh(f[..n]) else Fresh(f[..n]) + [f[n]]
  }

  lemma {:induction false} FreshStep(f: seq<Range>, k: nat)
    requires k < |f|
    ensures Fresh(f[..k + 1]) == if 0 < k && f[k].lo == f[k - 1].hi then Fresh(f[..k]) else Fresh(f[..k]) + [f[k]]
  {
    assert f[..k + 1][..k] == f[..k];
  }

  lemma {:induction false} FreshOfApart(f: seq<Range>)
    requires forall k | 0 < k < |f| :: f[k - 1].hi < f[k].lo
    ensures Fresh(f) == f
  {
    if f != [] {
      var n := |f| - 1;
      FreshOfApart(f[..n]);
      assert f == f[..n] + [f[n]];
      assert 0 < n ==> f[n - 1].hi < f[n].lo;
    }
  }

  lemma {:induction false} TotalSnoc(f: seq<Range>, x: Range)
    ensures Total(f + [x]) == Total(f) + (x.hi - x.lo + 1)
  {
    assert (f + [x])[..|f + [x]| - 1] == f;
  }

  const INT_MAX: int := 0x7fff_ffff

  /** The ranges a key of len words is read as: for an odd length the last one ends with the word behind the key. */
  function ReadAs(words: seq<int>, len: nat): seq<Range>
    requires len + len % 2 <= |words|
  {
    RangesOf(words[..len + len % 2])
  }

  lemma {:induction false} SizeStep(f: seq<Range>, k: nat)
    requires k < |f|
    ensures Total(Fresh(f[..k + 1])) == Total(Fresh(f[..k])) + (if 0 < k && f[k].lo == f[k - 1].hi then 0 else f[k].hi - f[k].lo + 1)
  {
    FreshStep(f, k);
    TotalSnoc(Fresh(f[..k]), f[k]);
  }

  /** internal_size: the number of members of a key, repeated ranges not counted, or -1 if an int cannot hold it. */
  method InternalSize(a: array<int>, len: nat) returns (size: int)
    requires len + len % 2 <= a.Length
    ensures var total := Total(Fresh(ReadAs(a[..], len)));
            size == if -INT_MAX - 1 <= total <= INT_MAX then total else -1
  {
    ghost var words := a[..][..len + len % 2];
    ghost var f := RangesOf(words);
    size := 0;
    var i := 0;
    ghost var k := 0;
    while i < len
      invariant i == 2 * k && k <= |f| && size == Total(Fresh(f[..k]))
    {
      assert f[k] == Range(a[i], a[i + 1]) && (0 < k ==> f[k - 1].hi == a[i - 1]) by {
        RangesAt(words, k);
        if 0 < k {
          RangesAt(words, k - 1);
        }
      }
      SizeStep(f, k);
      if i == 0 || a[i] != a[i - 1] {
        size := size + (a[i + 1] - a[i] + 1);
      }
      i := i + 2;
      k := k + 1;
    }
    assert f[..|f|] == f;
    if size > INT_MAX || size < -INT_MAX - 1 {
      size := -1;
    }
  }
}
