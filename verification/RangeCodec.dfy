/**
  g_int_compress and g_int_decompress of contrib/intarray/_int_gist.c on top of
  the range algebra, and what a key that went through both still tells.
 */
module RangeCodec {
  import opened RangeKeys

  /** A key, the error for one with too many members, or, on reading, writes past the memory allocated for it. */
  datatype Stored = Key(s: seq<int>) | TooSparse | Overrun

  lemma {:induction false} FlatGap(x: seq<int>, cuts: seq<nat>, k: nat)
    requires CutsOk(cuts, |x|) && 0 < k < |cuts|
    ensures 0 < cuts[k] < |x| && Flat(x, cuts)[2 * k] - Flat(x, cuts)[2 * k - 1] == Gap(x, cuts[k])
  {
    var f := Flat(x, cuts);
    assert f[2 * k] == x[cuts[k]] by {
      FlatAt(x, cuts, k);
    }
    assert f[2 * (k - 1) + 1] == x[Until(cuts, k - 1, |x|)] by {
      FlatAt(x, cuts, k - 1);
    }
    assert 2 * (k - 1) + 1 == 2 * k - 1 && cuts[k - 1] < cuts[k];
  }

  lemma {:induction false} FlatFrom(x: seq<int>, cuts: seq<nat>, p: nat)
    requires CutsOk(cuts, |x|) && p < 2 * |cuts|
    ensures Flat(x, cuts)[p] in x
  {
    FlatAt(x, cuts, p / 2);
    if p % 2 == 0 {
      assert p == 2 * (p / 2);
    } else {
      assert p == 2 * (p / 2) + 1;
    }
  }

  /** The smallest gap between entries is the smallest between ranges. */
  lemma {:induction false} SmallestOfFlat(x: seq<int>, cuts: seq<nat>, q: nat)
    requires CutsOk(cuts, |x|) && 0 < q < |cuts|
    requires var f := Flat(x, cuts); |f| == 2 * |cuts| && FirstSmallest(f, q)
    ensures forall k | 0 < k < |cuts| ::
              0 < cuts[k] < |x| && Gap(x, cuts[q]) <= Gap(x, cuts[k]) && (k < q ==> Gap(x, cuts[q]) < Gap(x, cuts[k]))
  {
    FlatGap(x, cuts, q);
    forall k | 0 < k < |cuts|
      ensures 0 < cuts[k] < |x| && Gap(x, cuts[q]) <= Gap(x, cuts[k]) && (k < q ==> Gap(x, cuts[q]) < Gap(x, cuts[k]))
    {
      FlatGap(x, cuts, k);
      assert GapAt(Flat(x, cuts), q) <= GapAt(Flat(x, cuts), k);
    }
  }

  /** The second phase: while there are too many ranges, the two nearest are joined. */
  method JoinNearest(dr: array<int>, len0: nat, r: nat, ghost x: seq<int>, ghost cuts0: seq<nat>)
    returns (len: nat, ghost cuts: seq<nat>, ghost tau: int)
    requires 0 < r <= |cuts0| && len0 == 2 * |cuts0| <= dr.Length && CutAt(x, cuts0, 1) && dr[..len0] == Flat(x, cuts0)
    requires Chosen(x, cuts0) && (r < |cuts0| ==> OpenWide(x, cuts0)) && forall i | 0 <= i < |x| :: IsInt32(x[i])
    modifies dr
    ensures len == 2 * r <= dr.Length && |cuts| == r && CutAt(x, cuts, tau) && Chosen(x, cuts) && dr[..len] == Flat(x, cuts)
  {
    len, cuts, tau := len0, cuts0, 1;
    while len > 2 * r
      invariant r <= |cuts| && len == 2 * |cuts| <= dr.Length && CutAt(x, cuts, tau) && dr[..len] == Flat(x, cuts)
      invariant Chosen(x, cuts) && (r < |cuts| ==> OpenWide(x, cuts))
      decreases len
    {
      len, cuts, tau := JoinOne(dr, len, x, cuts, tau);
    }
  }

  method JoinOne(dr: array<int>, len0: nat, ghost x: seq<int>, ghost cuts0: seq<nat>, ghost tau0: int)
    returns (len: nat, ghost cuts: seq<nat>, ghost tau: int)
    requires 1 < |cuts0| && len0 == 2 * |cuts0| <= dr.Length && CutAt(x, cuts0, tau0) && dr[..len0] == Flat(x, cuts0)
    requires Chosen(x, cuts0) && OpenWide(x, cuts0) && forall i | 0 <= i < |x| :: IsInt32(x[i])
    modifies dr
    ensures len == len0 - 2 && |cuts| == |cuts0| - 1 && CutAt(x, cuts, tau) && dr[..len] == Flat(x, cuts)
    ensures Chosen(x, cuts) && OpenWide(x, cuts)
  {
    ghost var f := Flat(x, cuts0);
    forall k | 0 <= k < len0 ensures IsInt32(f[k]) {
      FlatFrom(x, cuts0, k);
    }
    var cand;
    ghost var q;
    cand, q := SmallestGap(dr, len0, f);
    cuts, tau := JoinAt(x, cuts0, tau0, q);
    len := DropPair(dr, len0, cand);
  }

  lemma {:induction false} JoinAt(x: seq<int>, cuts0: seq<nat>, tau0: int, q: nat) returns (cuts: seq<nat>, tau: int)
    requires CutAt(x, cuts0, tau0) && Chosen(x, cuts0) && OpenWide(x, cuts0) && 0 < q < |cuts0| && FirstSmallest(Flat(x, cuts0), q)
    ensures |cuts| == |cuts0| - 1 && CutAt(x, cuts, tau) && Chosen(x, cuts) && OpenWide(x, cuts)
    ensures Flat(x, cuts) == Flat(x, cuts0)[..2 * q - 1] + Flat(x, cuts0)[2 * q + 1..]
  {
    SmallestOfFlat(x, cuts0, q);
    JoinSmallest(x, cuts0, tau0, q);
    JoinFirst(x, cuts0, q);
    cuts, tau := cuts0[..q] + cuts0[q + 1..], Gap(x, cuts0[q]);
    FlatWithout(x, cuts0, q, cuts);
  }

  /** Two entries of the array are squeezed out. */
  method DropPair(dr: array<int>, len0: nat, cand: nat) returns (len: nat)
    requires 0 < cand < len0 <= dr.Length
    modifies dr
    ensures len == len0 - 2 && dr[..len] == old(dr[..len0])[..cand - 1] + old(dr[..len0])[cand + 1..]
  {
    ghost var was := dr[..len0];
    assert dr[cand + 1..cand + 1 + (len0 - cand - 1)] == was[cand + 1..];
    MoveDown(dr, cand - 1, cand + 1, len0 - cand - 1);
    len := len0 - 2;
    assert dr[..len] == dr[..cand - 1] + dr[cand - 1..cand - 1 + (len0 - cand - 1)];
    assert dr[..cand - 1] == was[..cand - 1];
  }

  /** A cover of the input by at most r ranges. */
  ghost predicate Covers(x: seq<int>, r: nat, f: seq<Range>) {
    |f| <= r && HasInputs(x, Covered(f))
  }

  /** The best r ranges for x: apart, covering, ending where x ends, and no larger than any other cover by r ranges. */
  ghost predicate BestKey(x: seq<int>, r: nat, s: seq<int>) {
    && |s| == 2 * r > 0 && Apart(RangesOf(s)) && Covers(x, r, RangesOf(s)) && x != [] && s[|s| - 1] == x[|x| - 1]
    && forall f | Covers(x, r, f) :: |Covered(RangesOf(s))| <= |Covered(f)|
  }

  /** The ranges that the rule for joining gaps leads to. */
  ghost predicate ChosenKey(x: seq<int>, r: nat, s: seq<int>) {
    exists cuts | Chosen(x, cuts) && |cuts| == r :: s == Flat(x, cuts)
  }

  /** There is only one such key. */
  lemma {:induction false} ChosenKeyIsUnique(x: seq<int>, r: nat, s: seq<int>, t: seq<int>)
    requires ChosenKey(x, r, s) && ChosenKey(x, r, t)
    ensures s == t
  {
    var a :| Chosen(x, a) && |a| == r && s == Flat(x, a);
    var b :| Chosen(x, b) && |b| == r && t == Flat(x, b);
    ChosenIsUnique(x, a, b);
  }

  lemma {:induction false} CutIsBest(x: seq<int>, cuts: seq<nat>, tau: int)
    requires StrictlyIncreasing(x) && 0 < |x| && CutAt(x, cuts, tau)
    ensures BestKey(x, |cuts|, Flat(x, cuts))
  {
    CutsAreApart(x, cuts);
    KeySetShape(x, cuts);
    FlatAt(x, cuts, |cuts| - 1);
    forall f | Covers(x, |cuts|, f) ensures |KeySet(x, cuts)| <= |Covered(f)| {
      CutIsOptimal(x, cuts, tau, f);
    }
  }

  /** Both phases: r ranges that hold the input, as small as r ranges can be, and which ones of those. */
  method BestRanges(a: seq<int>, r: nat) returns (dr: array<int>, len: nat)
    requires 0 < r && 2 * r <= |a| && StrictlyIncreasing(a) && forall i | 0 <= i < |a| :: IsInt32(a[i])
    ensures fresh(dr) && len <= dr.Length && BestKey(a, r, dr[..len]) && ChosenKey(a, r, dr[..len])
  {
    var n := |a|;
    dr := new int[2 * n](k => if 0 <= k < |a| then a[k] else 0);
    assert dr[..n] == a;
    ghost var cuts, tau;
    len, cuts := JoinRuns(dr, n, r, a);
    assert CutAt(a, cuts, 1) by {
      forall m | 0 < m < |a| ensures 1 <= Gap(a, m) {
        assert a[m - 1] < a[m];
      }
    }
    len, cuts, tau := JoinNearest(dr, len, r, a, cuts);
    CutIsBest(a, cuts, tau);
  }

  /**
    g_int_compress of an inner key. Small keys are stored as they are; large
    ones as their best r ranges, unless even those have too many members.
   */
  method Compress(a: seq<int>, r: nat, maxElts: nat) returns (k: Stored)
    requires 0 < r && StrictlyIncreasing(a) && forall i | 0 <= i < |a| :: IsInt32(a[i])
    ensures |a| < 2 * r ==> k == Key(a)
    ensures |a| >= 2 * r && k.Key? ==> BestKey(a, r, k.s) && ChosenKey(a, r, k.s) && |Covered(RangesOf(k.s))| <= maxElts
    ensures k.TooSparse? ==> forall f | Covers(a, r, f) :: |Covered(f)| > maxElts || |Covered(f)| > INT_MAX
    ensures !k.Overrun?
  {
    if |a| == 0 || |a| < 2 * r {
      return Key(a);
    }
    var dr, len := BestRanges(a, r);
    ghost var f := RangesOf(dr[..len]);
    assert ReadAs(dr[..], len) == f;
    TotalIsSize(f);
    FreshOfApart(f);
    var size := InternalSize(dr, len);
    if size < 0 || size > maxElts {
      return TooSparse;
    }
    return Key(dr[..len]);
  }

  // ----- g_int_decompress

  /** The members of a range in order. */
  function Run(lo: int, hi: int): (s: seq<int>)
    ensures |s| == if lo <= hi then hi - lo + 1 else 0
  {
    seq(if lo <= hi then hi - lo + 1 else 0, k => lo + k)
  }

  /** The members of all ranges in order. */
  function Expand(f: seq<Range>): seq<int> {
    if f == [] then [] else Expand(f[..|f| - 1]) + Run(f[|f| - 1].lo, f[|f| - 1].hi)
  }

  lemma {:induction false} RunHas(lo: int, hi: int, z: int)
    ensures z in Run(lo, hi) <==> lo <= z <= hi
  {
    if lo <= z <= hi {
      assert Run(lo, hi)[z - lo] == z;
    }
  }

  lemma {:induction false} ExpandHas(f: seq<Range>, z: int)
    ensures z in Expand(f) <==> z in Covered(f)
  {
    if f != [] {
      ExpandHas(f[..|f| - 1], z);
      RunHas(f[|f| - 1].lo, f[|f| - 1].hi, z);
    }
  }

  lemma {:induction false} ExpandIsSorted(f: seq<Range>)
    requires Apart(f)
    ensures |Expand(f)| == Total(f) && StrictlyIncreasing(Expand(f))
  {
    if f != [] {
      var g, last := f[..|f| - 1], f[|f| - 1];
      ExpandIsSorted(g);
      forall z | z in Expand(g) ensures z < last.lo {
        ExpandHas(g, z);
        var k := CoveringRange(g, z);
        assert f[k] == g[k];
      }
      Concatenated(Expand(g), Run(last.lo, last.hi), last.lo);
    }
  }

  lemma {:induction false} Concatenated(a: seq<int>, b: seq<int>, lo: int)
    requires StrictlyIncreasing(a) && (forall z | z in a :: z < lo)
    requires forall k | 0 <= k < |b| :: b[k] == lo + k
    ensures StrictlyIncreasing(a + b)
  {
    forall i, j | 0 <= i < j < |a + b| ensures (a + b)[i] < (a + b)[j] {
      if i < |a| <= j {
        assert a[i] in a;
      }
    }
  }

  const INT_MIN: int := -INT_MAX - 1

  /** The int counter of the loop over a range, which wraps around at the top. */
  function Next(j: int): int {
    if j == INT_MAX then INT_MIN else j + 1
  }

  /** What is written for ranges one after the other: a start that was just written is not repeated. */
  function Written(f: seq<Range>): seq<int> {
    if f == [] then [] else Written(f[..|f| - 1]) + RunAfter(Written(f[..|f| - 1]), f[|f| - 1])
  }

  function RunAfter(w: seq<int>, x: Range): seq<int> {
    Run(StartAfter(w, x.lo), x.hi)
  }

  function StartAfter(w: seq<int>, lo: int): int {
    if w != [] && w[|w| - 1] == lo then lo + 1 else lo
  }

  /** Some range ends at the largest int: the loop over it has no end. */
  ghost predicate Endless(f: seq<Range>) {
    exists k | 0 <= k < |f| :: f[k].hi == INT_MAX
  }

  /** Nothing is looked up before the start of the result: of several ranges the first is not backwards. */
  ghost predicate Readable(f: seq<Range>) {
    |f| > 1 ==> f[0].lo <= f[0].hi
  }

  /** What becomes of members to be written into so many slots. */
  function Slotted(slots: int, members: seq<int>, endless: bool, maxElts: nat): Stored {
    if slots < 0 || slots > INT_MAX || slots > maxElts then TooSparse
    else if endless || |members| > slots then Overrun
    else Key(members)
  }

  /** What ranges are read back as. */
  ghost function ReadRanges(f: seq<Range>, maxElts: nat): Stored {
    Slotted(Total(Fresh(f)), Written(f), Endless(f), maxElts)
  }

  /** What is read back from the words of a key, len of them and perhaps one behind it. */
  ghost function ReadBack(words: seq<int>, len: nat, r: nat, maxElts: nat): Stored
    requires len + len % 2 <= |words|
  {
    if len < 2 * r then Key(words[..len]) else ReadRanges(ReadAs(words, len), maxElts)
  }

  /** Writes out one range; a start equal to the value before it is skipped. A range up to INT_MAX never ends. */
  method WriteRange(dr: array<int>, w0: nat, lo: int, hi: int, first: bool) returns (w: nat, overrun: bool)
    requires IsInt32(lo) && IsInt32(hi) && w0 <= dr.Length && (if first then w0 == 0 else 0 < w0)
    modifies dr
    ensures var run := RunAfter(old(dr[..w0]), Range(lo, hi));
            && (overrun <==> hi == INT_MAX || w0 + |run| > dr.Length)
            && (!overrun ==> w == w0 + |run| && dr[..w] == old(dr[..w0]) + run)
  {
    w, overrun := w0, false;
    ghost var base := dr[..w0];
    var j := lo;
    while j <= hi
      invariant w0 <= w <= dr.Length && Midway(dr[..w], base, lo, hi, j)
      decreases dr.Length - w, if j == lo && w == w0 then 1 else 0
    {
      MidwayStep(dr[..w], base, lo, hi, j);
      w, overrun := WriteMember(dr, w, j, first);
      if overrun {
        return;
      }
      j := Next(j);
    }
    MidwayEnd(dr[..w], base, lo, hi, j);
  }

  /** What has been written, after base, when the counter of the loop over a range is at j. */
  ghost predicate Midway(cur: seq<int>, base: seq<int>, lo: int, hi: int, j: int) {
    && IsInt32(j) && (base != [] ==> cur != [])
    && ((j == lo && cur == base) || (cur != [] && Next(cur[|cur| - 1]) == j))
    && (hi < INT_MAX ==> lo <= j && (j <= hi + 1 || j == lo) && cur == base + Run(StartAfter(base, lo), j - 1))
  }

  lemma {:induction false} MidwayStep(cur: seq<int>, base: seq<int>, lo: int, hi: int, j: int)
    requires Midway(cur, base, lo, hi, j) && IsInt32(lo) && j <= hi && IsInt32(hi)
    ensures var skip := base != [] && cur[|cur| - 1] == j;
            && Midway(cur + (if skip then [] else [j]), base, lo, hi, Next(j)) && (skip ==> j == lo && |cur| == |base|)
            && (!skip && hi < INT_MAX ==> |cur| < |base + RunAfter(base, Range(lo, hi))|)
  {
    OneMoreMember(base, StartAfter(base, lo), j);
    assert cur + [] == cur;
    if base != [] && cur[|cur| - 1] == j {
      assert j == lo && cur == base;
    }
  }

  lemma {:induction false} MidwayEnd(cur: seq<int>, base: seq<int>, lo: int, hi: int, j: int)
    requires Midway(cur, base, lo, hi, j) && IsInt32(lo) && j > hi
    ensures hi < INT_MAX && cur == base + RunAfter(base, Range(lo, hi))
  {
    if hi < lo {
      assert Run(StartAfter(base, lo), hi) == [] == Run(StartAfter(base, lo), j - 1);
    }
  }

  /** One value, unless it was just written. */
  method WriteMember(dr: array<int>, w0: nat, j: int, first: bool) returns (w: nat, overrun: bool)
    requires w0 <= dr.Length && (first || 0 < w0)
    modifies dr
    ensures var skip := !first && old(dr[..w0])[w0 - 1] == j;
            && (overrun <==> !skip && w0 == dr.Length)
            && (!overrun ==> w == w0 + (if skip then 0 else 1) && w <= dr.Length)
            && (!overrun ==> dr[..w] == old(dr[..w0]) + if skip then [] else [j])
  {
    w, overrun := w0, false;
    if first || dr[w - 1] != j {
      if w == dr.Length {
        return w, true;
      }
      dr[w] := j;
      w := w + 1;
    }
  }

  lemma {:induction false} OneMoreMember(base: seq<int>, from: int, j: int)
    ensures from <= j ==> base + Run(from, j - 1) + [j] == base + Run(from, j)
    ensures from > j ==> base + Run(from, j) == base
  {
    assert from <= j ==> Run(from, j - 1) + [j] == Run(from, j);
  }

  /** What is in the new array before range k, when all ranges so far came to an end. */
  ghost predicate Filled(dr: seq<int>, f: seq<Range>, k: nat) {
    k <= |f| && dr == Written(f[..k]) && !Endless(f[..k]) && (0 < k < |f| ==> dr != [])
  }

  lemma {:induction false} WrittenStep(f: seq<Range>, k: nat)
    requires k < |f|
    ensures Written(f[..k + 1]) == Written(f[..k]) + RunAfter(Written(f[..k]), f[k])
    ensures Endless(f[..k + 1]) <==> Endless(f[..k]) || f[k].hi == INT_MAX
  {
    var g := f[..k + 1];
    assert g[..k] == f[..k] && g[k] == f[k];
    if Endless(f[..k]) {
      var i :| 0 <= i < k && f[..k][i].hi == INT_MAX;
      assert g[i].hi == INT_MAX;
    }
    if Endless(g) {
      var i :| 0 <= i < |g| && g[i].hi == INT_MAX;
      assert i < k ==> f[..k][i].hi == INT_MAX;
    }
  }

  lemma {:induction false} FilledStep(dr: seq<int>, f: seq<Range>, k: nat)
    requires Readable(f) && k < |f| && Filled(dr, f, k)
    ensures f[k].hi < INT_MAX ==> Filled(dr + RunAfter(dr, f[k]), f, k + 1)
    ensures f[k].hi == INT_MAX ==> Endless(f)
  {
    WrittenStep(f, k);
  }

  /** What is written up to range k stays at the start of all that is written. */
  lemma {:induction false} WrittenPrefix(f: seq<Range>, k: nat)
    requires k <= |f|
    ensures |Written(f[..k])| <= |Written(f)| && (Endless(f[..k]) ==> Endless(f))
    decreases |f| - k
  {
    if k < |f| {
      WrittenStep(f, k);
      WrittenPrefix(f, k + 1);
    } else {
      assert f[..k] == f;
    }
  }

  lemma {:induction false} ReadAsAt(words: seq<int>, len: nat, k: nat)
    requires len + len % 2 <= |words| && 2 * k < len
    ensures k < |ReadAs(words, len)| && ReadAs(words, len)[k] == Range(words[2 * k], words[2 * k + 1])
  {
  }

  /** The members of range k, written after those before it. */
  method ExpandOne(dr: array<int>, w0: nat, lo: int, hi: int, first: bool, ghost f: seq<Range>, ghost k: nat) returns (w: nat, overrun: bool)
    requires Readable(f) && k < |f| && f[k] == Range(lo, hi) && IsInt32(lo) && IsInt32(hi) && (first <==> k == 0)
    requires w0 <= dr.Length && Filled(dr[..w0], f, k)
    modifies dr
    ensures overrun ==> Endless(f) || |Written(f)| > dr.Length
    ensures !overrun ==> w <= dr.Length && Filled(dr[..w], f, k + 1)
  {
    FilledStep(dr[..w0], f, k);
    WrittenStep(f, k);
    WrittenPrefix(f, k + 1);
    w, overrun := WriteRange(dr, w0, lo, hi, first);
  }

  /** The members of all ranges, written one range after the other into lenr slots. */
  method ExpandInto(din: array<int>, lenin: nat, lenr: nat) returns (s: seq<int>, overrun: bool)
    requires lenin + lenin % 2 <= din.Length && Readable(ReadAs(din[..], lenin)) && forall i | 0 <= i < din.Length :: IsInt32(din[i])
    ensures var f := ReadAs(din[..], lenin);
            (overrun <==> Endless(f) || |Written(f)| > lenr) && (!overrun ==> s == Written(f))
  {
    ghost var words, f := din[..], ReadAs(din[..], lenin);
    var dr := new int[lenr];
    var i: nat, w: nat := 0, 0;
    ghost var k := 0;
    while i < lenin
      invariant i == 2 * k && k <= |f| && w <= lenr && din[..] == words && Filled(dr[..w], f, k)
    {
      assert f[k] == Range(din[i], din[i + 1]) && IsInt32(din[i]) && IsInt32(din[i + 1]) by {
        ReadAsAt(words, lenin, k);
        assert din[i] == words[i] && din[i + 1] == words[i + 1];
      }
      w, overrun := ExpandOne(dr, w, din[i], din[i + 1], i == 0, f, k);
      if overrun {
        return [], true;
      }
      i := i + 2;
      k := k + 1;
    }
    assert f[..|f|] == f;
    return dr[..w], false;
  }

  /**
    g_int_decompress. A key shorter than 2 * r was never compressed; a longer
    one is read as ranges, whose members go into as many slots as internal_size
    says.
   */
  method Decompress(din: array<int>, lenin: nat, r: nat, maxElts: nat) returns (k: Stored)
    requires 0 < r && lenin + lenin % 2 <= din.Length && forall i | 0 <= i < din.Length :: IsInt32(din[i])
    requires lenin >= 2 * r ==> Readable(ReadAs(din[..], lenin))
    ensures k == ReadBack(din[..], lenin, r, maxElts)
  {
    if lenin == 0 || lenin < 2 * r {
      return Key(din[..lenin]);
    }
    var lenr := InternalSize(din, lenin);
    if lenr < 0 || lenr > maxElts {
      return TooSparse;
    }
    var s, overrun := ExpandInto(din, lenin, lenr);
    k := if overrun then Overrun else Key(s);
  }

  /** Disjoint ranges are read back as their members, or refused if they are too many; one up to INT_MAX overruns. */
  lemma {:induction false} ApartIsRead(f: seq<Range>, maxElts: nat)
    requires Apart(f)
    ensures Readable(f)
    ensures ReadRanges(f, maxElts) ==
              if Total(f) > maxElts || Total(f) > INT_MAX then TooSparse else if Endless(f) then Overrun else Key(Expand(f))
  {
    FreshOfApart(f);
    TotalIsSize(f);
    ExpandIsSorted(f);
    WrittenOfApart(f);
  }

  lemma {:induction false} WrittenOfApart(f: seq<Range>)
    requires Apart(f)
    ensures Written(f) == Expand(f) && (f != [] ==> Expand(f) != [] && Expand(f)[|Expand(f)| - 1] == f[|f| - 1].hi)
  {
    if f != [] {
      var n := |f| - 1;
      WrittenOfApart(f[..n]);
      assert 0 < n ==> f[..n][n - 1].hi < f[n].lo;
    }
  }

  lemma {:induction false} WrittenOneMore(g: seq<Range>, last: Range)
    requires Apart(g) && (g != [] ==> g[|g| - 1].hi < last.lo)
    ensures Written(g + [last]) == Expand(g) + Run(last.lo, last.hi)
  {
    assert (g + [last])[..|g|] == g;
    WrittenOfApart(g);
  }

  /** Among ranges that are apart, only the last can end at the largest int. */
  lemma {:induction false} EndlessLast(f: seq<Range>)
    requires f != [] && Apart(f) && IsInt32(f[|f| - 1].hi)
    ensures Endless(f) <==> f[|f| - 1].hi == INT_MAX
  {
    forall k | 0 <= k < |f| - 1 ensures f[k].hi < INT_MAX {
      assert f[k].hi < f[|f| - 1].lo;
    }
  }

  lemma {:induction false} ReadAsEven(s: seq<int>, words: seq<int>)
    requires |s| % 2 == 0 && |s| <= |words| && words[..|s|] == s
    ensures |s| + |s| % 2 == |s| && ReadAs(words, |s|) == RangesOf(s)
  {
  }

  /** Reading back the ranges that hold x gives a sorted superset of x, with as many members as the ranges have. */
  lemma {:induction false} CodecKeepsInputs(x: seq<int>, f: seq<Range>)
    requires Apart(f) && HasInputs(x, Covered(f))
    ensures StrictlyIncreasing(Expand(f)) && |Expand(f)| == |Covered(f)|
    ensures forall i | 0 <= i < |x| :: x[i] in Expand(f)
  {
    TotalIsSize(f);
    ExpandIsSorted(f);
    forall i | 0 <= i < |x| ensures x[i] in Expand(f) {
      ExpandHas(f, x[i]);
    }
  }

  /**
    A compressed key read back: a sorted superset of the input, no larger than any
    cover by r ranges. If the input ends at the largest int, reading it overruns.
   */
  lemma {:induction false} CompressedReadsBack(x: seq<int>, r: nat, s: seq<int>, words: seq<int>, maxElts: nat)
    requires 0 < r && BestKey(x, r, s) && IsInt32(x[|x| - 1])
    requires |Covered(RangesOf(s))| <= maxElts <= INT_MAX && |s| <= |words| && words[..|s|] == s
    ensures var k := ReadBack(words, |s|, r, maxElts);
            if x[|x| - 1] == INT_MAX then k == Overrun
            else
              && k.Key? && StrictlyIncreasing(k.s) && (forall i | 0 <= i < |x| :: x[i] in k.s)
              && forall f | Covers(x, r, f) :: |k.s| <= |Covered(f)|
  {
    EvenReadsBack(s, words, r, maxElts);
    EntriesReadBack(s, maxElts);
    Superset(x, r, s, Expand(RangesOf(s)));
  }

  lemma {:induction false} EvenReadsBack(s: seq<int>, words: seq<int>, r: nat, maxElts: nat)
    requires |s| % 2 == 0 && 2 * r <= |s| <= |words| && words[..|s|] == s
    ensures ReadBack(words, |s|, r, maxElts) == ReadRanges(RangesOf(s), maxElts)
  {
    ReadAsEven(s, words);
  }

  lemma {:induction false} EntriesReadBack(s: seq<int>, maxElts: nat)
    requires s != [] && |s| % 2 == 0 && Apart(RangesOf(s)) && IsInt32(s[|s| - 1]) && |Covered(RangesOf(s))| <= maxElts <= INT_MAX
    ensures ReadRanges(RangesOf(s), maxElts) == if s[|s| - 1] == INT_MAX then Overrun else Key(Expand(RangesOf(s)))
  {
    RangesAt(s, |s| / 2 - 1);
    KeyReadsBack(RangesOf(s), maxElts);
  }

  lemma {:induction false} KeyReadsBack(f: seq<Range>, maxElts: nat)
    requires f != [] && Apart(f) && IsInt32(f[|f| - 1].hi) && |Covered(f)| <= maxElts <= INT_MAX
    ensures ReadRanges(f, maxElts) == if f[|f| - 1].hi == INT_MAX then Overrun else Key(Expand(f))
  {
    EndlessLast(f);
    TotalIsSize(f);
    ApartIsRead(f, maxElts);
  }

  lemma {:induction false} Superset(x: seq<int>, r: nat, s: seq<int>, e: seq<int>)
    requires BestKey(x, r, s) && e == Expand(RangesOf(s))
    ensures StrictlyIncreasing(e) && (forall i | 0 <= i < |x| :: x[i] in e) && forall f | Covers(x, r, f) :: |e| <= |Covered(f)|
  {
    CodecKeepsInputs(x, RangesOf(s));
  }

  // ----- Leaf keys

  /** Each element at an even place but an unpaired last one is followed by the next integer. */
  predicate PairsConsecutive(a: seq<int>) {
    forall k | 0 <= k < |a| / 2 :: a[2 * k + 1] == a[2 * k] + 1
  }

  lemma {:induction false} PairsAreApart(a: seq<int>)
    requires StrictlyIncreasing(a) && |a| % 2 == 0
    ensures Apart(RangesOf(a)) && forall k | 0 <= k < |RangesOf(a)| :: RangesOf(a)[k].lo < RangesOf(a)[k].hi
    ensures AllPairs(RangesOf(a)) <==> PairsConsecutive(a)
  {
    var f := RangesOf(a);
    if AllPairs(f) {
      forall k | 0 <= k < |a| / 2 ensures a[2 * k + 1] == a[2 * k] + 1 {
        assert f[k].hi == f[k].lo + 1;
      }
    }
    if PairsConsecutive(a) {
      forall k | 0 <= k < |f| ensures f[k].hi == f[k].lo + 1 {
        assert a[2 * k + 1] == a[2 * k] + 1;
      }
    }
  }

  function Unflat(f: seq<Range>): (s: seq<int>)
    ensures |s| == 2 * |f|
  {
    if f == [] then [] else Unflat(f[..|f| - 1]) + [f[|f| - 1].lo, f[|f| - 1].hi]
  }

  lemma {:induction false} UnflatAt(f: seq<Range>, k: nat)
    requires k < |f|
    ensures Unflat(f)[2 * k] == f[k].lo && Unflat(f)[2 * k + 1] == f[k].hi
  {
    if k < |f| - 1 {
      UnflatAt(f[..|f| - 1], k);
    }
  }

  lemma {:induction false} UnflatOfRanges(a: seq<int>)
    requires |a| % 2 == 0
    ensures Unflat(RangesOf(a)) == a
  {
    var f := RangesOf(a);
    forall p | 0 <= p < |a| ensures Unflat(f)[p] == a[p] {
      UnflatAt(f, p / 2);
    }
  }

  ghost predicate AllPairs(f: seq<Range>) {
    forall k | 0 <= k < |f| :: f[k].hi == f[k].lo + 1
  }

  lemma {:induction false} PairTotals(f: seq<Range>)
    requires forall k | 0 <= k < |f| :: f[k].lo < f[k].hi
    ensures Total(f) >= 2 * |f|
    ensures Total(f) == 2 * |f| <==> AllPairs(f)
    ensures AllPairs(f) ==> Expand(f) == Unflat(f)
  {
    if f != [] {
      var g, last := f[..|f| - 1], f[|f| - 1];
      PairTotals(g);
      assert AllPairs(f) <==> AllPairs(g) && last.hi == last.lo + 1 by {
        if AllPairs(g) && last.hi == last.lo + 1 {
          forall k | 0 <= k < |f| ensures f[k].hi == f[k].lo + 1 {
            assert k < |g| ==> g[k] == f[k];
          }
        }
      }
      if last.hi == last.lo + 1 {
        assert Run(last.lo, last.hi) == [last.lo, last.hi];
      }
    }
  }

  /** The members of the ranges that pairs of elements make: at least the elements, and they alone if the pairs are consecutive. */
  lemma {:induction false} RangeAt(a: seq<int>, k: nat)
    requires StrictlyIncreasing(a) && |a| % 2 == 0 && 2 * k + 1 < |a|
    ensures k < |RangesOf(a)| && RangesOf(a)[k].hi <= a[|a| - 1]
  {
  }

  lemma {:induction false} EvenLeaf(a: seq<int>)
    requires StrictlyIncreasing(a) && |a| % 2 == 0
    ensures var f := RangesOf(a);
            && Apart(f) && |Expand(f)| == Total(f) >= |a| && (Expand(f) == a <==> PairsConsecutive(a))
            && (Total(f) == |a| <==> PairsConsecutive(a))
            && forall z | z in Expand(f) :: a != [] && z <= a[|a| - 1]
  {
    var f := RangesOf(a);
    PairsAreApart(a);
    PairTotals(f);
    UnflatOfRanges(a);
    ExpandIsSorted(f);
    forall z | z in Expand(f) ensures a != [] && z <= a[|a| - 1] {
      ExpandHas(f, z);
      var k := CoveringRange(f, z);
      RangeAt(a, k);
    }
  }

  /** A leaf of odd length is read as the ranges of its pairs, and one from its last element to the word behind it. */
  lemma {:induction false} ReadAsOdd(a: seq<int>, x: int)
    requires |a| % 2 == 1
    ensures |a| + |a| % 2 == |a| + 1 && ReadAs(a + [x], |a|) == RangesOf(a[..|a| - 1]) + [Range(a[|a| - 1], x)]
  {
    var n := |a| - 1;
    assert (a + [x])[..|a| + 1] == a + [x];
    var f, g := RangesOf(a + [x]), RangesOf(a[..n]);
    assert |f| == |g| + 1 && 2 * |g| == n;
    forall k | 0 <= k < |f| ensures f[k] == (g + [Range(a[n], x)])[k] {
    }
  }

  lemma {:induction false} LastIsApart(g: seq<Range>, last: Range, f: seq<Range>)
    requires Apart(g) && (g != [] ==> g[|g| - 1].hi < last.lo) && f == g + [last]
    ensures Readable(f) && Fresh(f) == f
  {
    forall k | 0 < k < |f| ensures f[k - 1].hi < f[k].lo {
      assert k < |g| ==> g[k - 1].hi < g[k].lo;
    }
    FreshOfApart(f);
  }

  lemma {:induction false} EndlessOneMore(g: seq<Range>, last: Range, f: seq<Range>)
    requires Apart(g) && (g != [] ==> g[|g| - 1].hi < last.lo) && f == g + [last] && IsInt32(last.lo)
    ensures Endless(f) <==> last.hi == INT_MAX
  {
    assert f[|g|] == last;
    forall k | 0 <= k < |g| ensures f[k].hi < INT_MAX {
      assert k < |g| - 1 ==> g[k].hi < g[|g| - 1].lo;
    }
  }

  /**
    Leaf keys are stored as they are, whatever their length, yet a long one is
    read back as ranges. It comes back unchanged exactly if its elements pair up
    as consecutive integers, are not too many and do not end at the largest int,
    and for an odd length if the word behind the key happens to repeat its last
    element.
   */
  lemma {:induction false} LongLeafReadsBack(a: seq<int>, x: int, r: nat, maxElts: nat)
    requires StrictlyIncreasing(a) && 0 < r && |a| >= 2 * r && forall i | 0 <= i < |a| :: IsInt32(a[i])
    ensures |a| + |a| % 2 <= |a + [x]| && Readable(ReadAs(a + [x], |a|))
    ensures ReadBack(a + [x], |a|, r, maxElts) == Key(a) <==>
              && PairsConsecutive(a) && |a| <= maxElts && |a| <= INT_MAX && a[|a| - 1] < INT_MAX
              && (|a| % 2 == 1 ==> x == a[|a| - 1])
  {
    if |a| % 2 == 0 {
      assert (a + [x])[..|a|] == a;
      ReadAsEven(a, a + [x]);
      EvenLeafReads(a, maxElts);
    } else {
      ReadAsOdd(a, x);
      OddLeaf(a, x, maxElts);
    }
  }

  lemma {:induction false} EvenLeafReads(a: seq<int>, maxElts: nat)
    requires StrictlyIncreasing(a) && |a| % 2 == 0 && a != [] && IsInt32(a[|a| - 1])
    ensures Readable(RangesOf(a))
    ensures ReadRanges(RangesOf(a), maxElts) == Key(a) <==>
              PairsConsecutive(a) && |a| <= maxElts && |a| <= INT_MAX && a[|a| - 1] < INT_MAX
  {
    EvenLeaf(a);
    RangesAt(a, |a| / 2 - 1);
    EndlessLast(RangesOf(a));
    ApartIsRead(RangesOf(a), maxElts);
  }

  lemma {:induction false} OddLeaf(a: seq<int>, x: int, maxElts: nat)
    requires StrictlyIncreasing(a) && |a| % 2 == 1 && IsInt32(a[|a| - 1])
    ensures var n := |a| - 1; var f := RangesOf(a[..n]) + [Range(a[n], x)];
            && Readable(f)
            && (ReadRanges(f, maxElts) == Key(a) <==>
                  PairsConsecutive(a) && |a| <= maxElts && |a| <= INT_MAX && x == a[n] < INT_MAX)
  {
    EvenLeaf(a[..|a| - 1]);
    PairsOfFront(a);
    var g := RangesOf(a[..|a| - 1]);
    OddRanges(a, g, g + [Range(a[|a| - 1], x)], PairsConsecutive(a), x, maxElts);
  }

  lemma {:induction false} OddRanges(a: seq<int>, g: seq<Range>, f: seq<Range>, paired: bool, x: int, maxElts: nat)
    requires a != [] && f == g + [Range(a[|a| - 1], x)] && IsInt32(a[|a| - 1])
    requires Apart(g) && (g != [] ==> g[|g| - 1].hi < a[|a| - 1]) && (forall z | z in Expand(g) :: z < a[|a| - 1])
    requires |Expand(g)| == Total(g) >= |a| - 1 && (Expand(g) == a[..|a| - 1] <==> paired)
    ensures Readable(f)
    ensures ReadRanges(f, maxElts) == Key(a) <==> paired && |a| <= maxElts && |a| <= INT_MAX && x == a[|a| - 1] < INT_MAX
  {
    ReadOneMore(g, a[|a| - 1], x, f, maxElts);
    OddAnswer(a, Expand(g), ReadRanges(f, maxElts), paired, x, maxElts);
  }

  lemma {:induction false} OddAnswer(a: seq<int>, e: seq<int>, read: Stored, paired: bool, x: int, maxElts: nat)
    requires a != [] && |e| >= |a| - 1 && (forall z | z in e :: z < a[|a| - 1]) && (e == a[..|a| - 1] <==> paired) && IsInt32(a[|a| - 1])
    requires read == Slotted(|e| + (x - a[|a| - 1] + 1), e + Run(a[|a| - 1], x), x == INT_MAX, maxElts)
    ensures read == Key(a) <==> paired && |a| <= maxElts && |a| <= INT_MAX && x == a[|a| - 1] < INT_MAX
  {
    OddUnchanged(a, e, x, maxElts);
  }

  lemma {:induction false} ReadOneMore(g: seq<Range>, lo: int, hi: int, f: seq<Range>, maxElts: nat)
    requires Apart(g) && (g != [] ==> g[|g| - 1].hi < lo) && f == g + [Range(lo, hi)] && |Expand(g)| == Total(g) && IsInt32(lo)
    ensures Readable(f)
    ensures ReadRanges(f, maxElts) == Slotted(|Expand(g)| + (hi - lo + 1), Expand(g) + Run(lo, hi), hi == INT_MAX, maxElts)
  {
    LastIsApart(g, Range(lo, hi), f);
    assert Total(f) == Total(g) + (hi - lo + 1) by {
      TotalSnoc(g, Range(lo, hi));
    }
    assert Written(f) == Expand(g) + Run(lo, hi) by {
      WrittenOneMore(g, Range(lo, hi));
    }
    assert Endless(f) <==> hi == INT_MAX by {
      EndlessOneMore(g, Range(lo, hi), f);
    }
  }

  lemma {:induction false} PairsOfFront(a: seq<int>)
    requires StrictlyIncreasing(a) && |a| % 2 == 1
    ensures PairsConsecutive(a) <==> PairsConsecutive(a[..|a| - 1])
    ensures var g := RangesOf(a[..|a| - 1]); g != [] ==> g[|g| - 1].hi < a[|a| - 1]
    ensures |a| > 1 ==> a[..|a| - 1][|a| - 2] < a[|a| - 1]
  {
    var front := a[..|a| - 1];
    assert |a| / 2 == |front| / 2;
    assert forall k | 0 <= k < |front| / 2 :: front[2 * k] == a[2 * k] && front[2 * k + 1] == a[2 * k + 1];
  }

  /** When members that end before the last element, and then a run from it, make up the array. */
  lemma {:induction false} OddUnchanged(a: seq<int>, e: seq<int>, x: int, maxElts: nat)
    requires a != [] && |e| >= |a| - 1 && forall z | z in e :: z < a[|a| - 1]
    ensures var n := |a| - 1;
            Slotted(|e| + (x - a[n] + 1), e + Run(a[n], x), x == INT_MAX, maxElts) == Key(a) <==>
              e == a[..n] && |a| <= maxElts && |a| <= INT_MAX && x == a[n] && x != INT_MAX
  {
    var n := |a| - 1;
    var run := Run(a[n], x);
    assert |run| == if a[n] <= x then x - a[n] + 1 else 0;
    assert e + run == a ==> |run| == 1 && e == a[..n] by {
      if e + run == a {
        LastIsRun(a, e, run);
      }
    }
    assert e == a[..n] && x == a[n] ==> e + run == a by {
      assert a == a[..n] + [a[n]];
    }
  }

  lemma {:induction false} LastIsRun(a: seq<int>, e: seq<int>, run: seq<int>)
    requires a != [] && |e| >= |a| - 1 && e + run == a && a[|a| - 1] !in e
    ensures |run| == 1 && e == a[..|a| - 1]
  {
    assert a[|a| - 1] in e + run;
    assert e == a[..|e|];
  }

  /** 200 even numbers: a leaf at the limit of 100 ranges. */
  function Evens(): seq<int> {
    seq(200, i => 2 * i)
  }

  lemma {:induction false} TripleTotals(f: seq<Range>)
    requires forall k | 0 <= k < |f| :: f[k].hi == f[k].lo + 2
    ensures Total(f) == 3 * |f|
  {
    if f != [] {
      TripleTotals(f[..|f| - 1]);
    }
  }

  lemma {:induction false} EvensAsRanges()
    ensures var a := Evens(); StrictlyIncreasing(a) && 1 !in a
    ensures var f := RangesOf(Evens()); Apart(f) && Total(f) == 300 && 1 in Expand(f)
  {
    var f := RangesOf(Evens());
    assert |f| == 100 && forall k | 0 <= k < |f| :: f[k] == Range(4 * k, 4 * k + 2);
    QuadsAsRanges(f);
  }

  lemma {:induction false} QuadsAsRanges(f: seq<Range>)
    requires |f| == 100 && forall k | 0 <= k < |f| :: f[k] == Range(4 * k, 4 * k + 2)
    ensures Apart(f) && Total(f) == 300 && 1 in Expand(f)
  {
    TripleTotals(f);
    assert f[0] == Range(0, 2);
    CoveredHas(f, 1);
    ExpandHas(f, 1);
  }

  /** They are read back with the odd number 1 among them. */
  lemma {:induction false} LongLeafChanges(x: int, maxElts: nat)
    requires 300 <= maxElts
    ensures StrictlyIncreasing(Evens()) && 1 !in Evens()
    ensures var k := ReadBack(Evens() + [x], 200, 100, maxElts); k.Key? && 1 in k.s
  {
    var a := Evens();
    EvensAsRanges();
    assert (a + [x])[..200] == a;
    ReadAsEven(a, a + [x]);
    RangesAt(a, 99);
    EndlessLast(RangesOf(a));
    ApartIsRead(RangesOf(a), maxElts);
  }
}
