/**
  The gist__int_ops index, contrib/intarray/_int_gist.c and the array functions of
  contrib/intarray/_int_tool.c it rests on: keys are sorted arrays, compressed when
  they are stored and decompressed when they are looked at, at every level.

  Rows and queries are taken as PREPAREARR leaves them, sorted and without
  duplicates.
 */
module IntGist {
  import BoolQuery
  import BoolEval
  import BoolIndex
  import opened RangeKeys
  import opened RangeCodec

  function Members(a: seq<int>): set<int> {
    set x | x in a
  }

  ghost predicate Prepared(a: seq<int>) {
    StrictlyIncreasing(a) && forall i | 0 <= i < |a| :: IsInt32(a[i])
  }

  // ----- Sorted arrays

  /** inner_int_contains: whether b is a subset of a. */
  method Contains(a: seq<int>, b: seq<int>) returns (res: bool)
    requires StrictlyIncreasing(a) && StrictlyIncreasing(b)
    ensures res <==> Members(b) <= Members(a)
  {
    var i, j, n := 0, 0, 0;
    while i < |a| && j < |b|
      invariant i <= |a| && n == j <= |b|
      invariant forall l | 0 <= l < j :: b[l] in a
      invariant forall k | 0 <= k < i && j < |b| :: a[k] < b[j]
    {
      if a[i] < b[j] {
        i := i + 1;
      } else if a[i] == b[j] {
        n, i, j := n + 1, i + 1, j + 1;
      } else {
        break;
      }
    }
    if j < |b| {
      assert b[j] in Members(b) && b[j] !in Members(a);
    }
    res := n == |b|;
  }

  /** inner_int_overlap: whether a and b have a common element. */
  method Overlap(a: seq<int>, b: seq<int>) returns (res: bool)
    requires StrictlyIncreasing(a) && StrictlyIncreasing(b)
    ensures res <==> Members(a) * Members(b) != {}
  {
    var i, j := 0, 0;
    while i < |a| && j < |b|
      invariant i <= |a| && j <= |b|
      invariant forall k | 0 <= k < i :: a[k] !in b
      invariant forall l | 0 <= l < j :: b[l] !in a
    {
      if a[i] < b[j] {
        NotAmong(b, a[i], j, a);
        i := i + 1;
      } else if a[i] == b[j] {
        assert a[i] in Members(a) * Members(b);
        return true;
      } else {
        NotAmong(a, b[j], i, b);
        j := j + 1;
      }
    }
    assert forall x | x in Members(a) :: x !in Members(b);
    return false;
  }

  /** A value below element j of b, of an array that has no element of b before it, is not in b. */
  lemma {:induction false} NotAmong(b: seq<int>, x: int, j: nat, a: seq<int>)
    requires StrictlyIncreasing(b) && j < |b| && x < b[j] && x in a && forall l | 0 <= l < j :: b[l] !in a
    ensures x !in b
  {
    forall l | 0 <= l < |b|
      ensures b[l] != x
    {
      if j < l {
        assert b[j] < b[l];
      }
    }
  }

  /** g_int_same. */
  method Same(a: seq<int>, b: seq<int>) returns (res: bool)
    ensures res <==> a == b
  {
    var n := |a|;
    if n != |b| {
      return false;
    }
    for i := 0 to n
      invariant forall k | 0 <= k < i :: a[k] == b[k]
    {
      if a[i] != b[i] {
        return false;
      }
    }
    return true;
  }

  ghost predicate Ascending(a: seq<int>) {
    forall i, j | 0 <= i < j < |a| :: a[i] <= a[j]
  }

  /** _int_unique: in place, the elements of a sorted array once each. */
  method Unique(a: array<int>) returns (n: nat)
    requires Ascending(a[..])
    modifies a
    ensures n <= a.Length && StrictlyIncreasing(a[..n]) && Members(a[..n]) == Members(old(a[..]))
  {
    ghost var was := a[..];
    if a.Length < 2 {
      assert a[..a.Length] == was;
      return a.Length;
    }
    var tmp: nat, dr: nat := 0, 0;
    while tmp < a.Length
      invariant tmp <= a.Length && dr < a.Length && dr <= tmp && a[tmp..] == was[tmp..]
      invariant tmp == 0 ==> dr == 0 && a[..] == was
      invariant 0 < tmp ==> dr < tmp && a[dr] == was[tmp - 1] && StrictlyIncreasing(a[..dr + 1]) && Members(a[..dr + 1]) == Members(was[..tmp])
    {
      tmp, dr := UniqueStep(a, tmp, dr, was);
    }
    assert was[..|was|] == was;
    return dr + 1;
  }

  method UniqueStep(a: array<int>, tmp: nat, dr: nat, ghost was: seq<int>) returns (tmp': nat, dr': nat)
    requires tmp < a.Length == |was| && dr <= tmp && a[tmp..] == was[tmp..] && Ascending(was)
    requires tmp == 0 ==> dr == 0 && a[..] == was
    requires 0 < tmp ==> dr < tmp && a[dr] == was[tmp - 1] && StrictlyIncreasing(a[..dr + 1]) && Members(a[..dr + 1]) == Members(was[..tmp])
    modifies a
    ensures tmp' == tmp + 1 && dr' < tmp' && a[tmp'..] == was[tmp'..] && a[dr'] == was[tmp]
    ensures StrictlyIncreasing(a[..dr' + 1]) && Members(a[..dr' + 1]) == Members(was[..tmp'])
  {
    ghost var kept := a[..dr + 1];
    assert a[tmp] == a[tmp..][0] == was[tmp] && a[tmp + 1..] == a[tmp..][1..] == was[tmp + 1..];
    assert Members(was[..tmp + 1]) == Members(was[..tmp]) + {was[tmp]} by {
      assert was[..tmp + 1] == was[..tmp] + [was[tmp]];
    }
    dr' := dr;
    if a[tmp] != a[dr] {
      dr' := dr + 1;
      a[dr'] := a[tmp];
      assert a[..dr' + 1] == kept + [was[tmp]];
      AddLast(kept, was[tmp]);
    } else if tmp == 0 {
      assert a[..1] == [was[0]] == was[..1];
    }
    tmp' := tmp + 1;
  }

  lemma {:induction false} AddLast(a: seq<int>, x: int)
    requires StrictlyIncreasing(a) && (a != [] ==> a[|a| - 1] < x)
    ensures StrictlyIncreasing(a + [x]) && Members(a + [x]) == Members(a) + {x}
  {
  }

  ghost predicate Sorts(sort: seq<int> -> seq<int>) {
    forall s :: Ascending(sort(s)) && Members(sort(s)) == Members(s)
  }

  function AllMembers(keys: seq<seq<int>>): set<int> {
    set k, x | k in keys && x in k :: x
  }

  lemma {:induction false} OneMoreKey(keys: seq<seq<int>>, k: seq<int>)
    ensures AllMembers(keys + [k]) == AllMembers(keys) + Members(k)
  {
    forall x | x in Members(k)
      ensures x in AllMembers(keys + [k])
    {
      assert k in keys + [k];
    }
    forall x | x in AllMembers(keys)
      ensures x in AllMembers(keys + [k])
    {
      var j :| j in keys && x in j;
      assert j in keys + [k];
    }
  }

  /** g_int_union: the elements of all entries, sorted, once each. */
  method Union(keys: seq<seq<int>>, sort: seq<int> -> seq<int>) returns (u: seq<int>)
    requires Sorts(sort)
    ensures StrictlyIncreasing(u) && Members(u) == AllMembers(keys)
  {
    var all: seq<int> := [];
    for i := 0 to |keys|
      invariant Members(all) == AllMembers(keys[..i])
    {
      assert keys[..i + 1] == keys[..i] + [keys[i]];
      OneMoreKey(keys[..i], keys[i]);
      assert Members(all + keys[i]) == Members(all) + Members(keys[i]);
      all := all + keys[i];
    }
    assert keys[..|keys|] == keys;
    var s := sort(all);
    var res := new int[|s|](i requires 0 <= i < |s| => s[i]);
    assert res[..] == s;
    var n := Unique(res);
    u := res[..n];
  }

  // ----- g_int_consistent

  datatype Query =
    | Overlaps(b: seq<int>)
    | Equals(b: seq<int>)
    | Has(b: seq<int>)
    | Within(b: seq<int>)
    | Boolean(t: BoolQuery.Tree)

  ghost predicate Asked(q: Query) {
    if q.Boolean? then BoolEval.LinksFit(q.t) else StrictlyIncreasing(q.b)
  }

  ghost predicate Satisfies(row: seq<int>, q: Query) {
    match q
    case Overlaps(b) => Members(row) * Members(b) != {}
    case Equals(b) => row == b
    case Has(b) => Members(b) <= Members(row)
    case Within(b) => Members(row) <= Members(b)
    case Boolean(t) => BoolIndex.Satisfies(t, Members(row))
  }

  /** What is tested on a key, on a leaf or on an inner page. */
  ghost predicate Passes(k: seq<int>, q: Query, leaf: bool)
    requires Asked(q)
  {
    match q
    case Overlaps(b) => Members(k) * Members(b) != {}
    case Equals(b) => if leaf then k == b else Members(b) <= Members(k)
    case Has(b) => Members(b) <= Members(k)
    case Within(b) => if leaf then Members(k) <= Members(b) else Members(k) * Members(b) != {}
    case Boolean(t) =>
      BoolEval.LinkedIsSafe(t);
      BoolEval.Execute(BoolEval.Linked(t), BoolQuery.Size(t) - 1, leaf, (i: nat, n: int) => n in k)
  }

  /** The operator search of g_int_consistent; the boolean one is execconsistent. */
  method Consistent(k: seq<int>, q: Query, leaf: bool) returns (res: bool)
    requires StrictlyIncreasing(k) && Asked(q)
    ensures res <==> Passes(k, q, leaf)
  {
    match q
    case Overlaps(b) =>
      res := Overlap(k, b);
    case Equals(b) =>
      if leaf {
        res := Same(k, b);
      } else {
        res := Contains(k, b);
      }
    case Has(b) =>
      res := Contains(k, b);
    case Within(b) =>
      if leaf {
        res := Contains(b, k);
      } else {
        res := Overlap(k, b);
      }
    case Boolean(t) =>
      BoolEval.LinkedIsSafe(t);
      res := BoolEval.Execute(BoolEval.Linked(t), BoolQuery.Size(t) - 1, leaf, (i: nat, n: int) => n in k);
  }

  /** On a leaf the test is the operator. */
  lemma {:induction false} LeafIsExact(row: seq<int>, q: Query)
    requires Asked(q)
    ensures Passes(row, q, true) <==> Satisfies(row, q)
  {
    if q.Boolean? {
      var members := Members(row);
      BoolEval.LinkedIsSafe(q.t);
      BoolEval.QueryMeans(BoolEval.Linked(q.t), q.t, (i: nat, n: int) => n in row, n => n in members);
    }
  }

  /** A key with all members of a satisfying row passes, but for an empty row contained in the query. */
  lemma {:induction false} InnerIsConsistent(row: seq<int>, q: Query, k: seq<int>)
    requires Asked(q) && Satisfies(row, q) && Members(row) <= Members(k) && (q.Within? ==> row != [])
    ensures Passes(k, q, false)
  {
    match q
    case Overlaps(b) =>
      assert Members(row) * Members(b) <= Members(k) * Members(b);
    case Within(b) =>
      assert row[0] in Members(row);
      assert row[0] in Members(k) * Members(b);
    case Boolean(t) =>
      var members := Members(row);
      BoolEval.LinkedIsSafe(t);
      BoolIndex.InnerKeyIsConsistent(BoolEval.Linked(t), t, members, (i: nat, n: int) => n in members, (i: nat, n: int) => n in k);
    case _ =>
  }

  /** For the operators on arrays an inner key passes exactly if some array of its members satisfies, for containment in the query a non-empty one. */
  lemma {:induction false} InnerIsTight(k: seq<int>, q: Query)
    requires Asked(q) && !q.Boolean?
    ensures Passes(k, q, false) <==>
              exists row | StrictlyIncreasing(row) :: Members(row) <= Members(k) && Satisfies(row, q) && (q.Within? ==> row != [])
  {
    forall row | StrictlyIncreasing(row) && Members(row) <= Members(k) && Satisfies(row, q) && (q.Within? ==> row != [])
      ensures Passes(k, q, false)
    {
      InnerIsConsistent(row, q, k);
    }
    if Passes(k, q, false) {
      if q.Overlaps? || q.Within? {
        var x := CommonMember(k, q.b);
        assert Members([x]) == {x};
        assert x in Members([x]) * Members(q.b);
        assert StrictlyIncreasing([x]) && Members([x]) <= Members(k) && Satisfies([x], q);
      } else {
        assert StrictlyIncreasing(q.b) && Members(q.b) <= Members(k) && Satisfies(q.b, q);
      }
    }
  }

  lemma {:induction false} CommonMember(a: seq<int>, b: seq<int>) returns (x: int)
    requires Members(a) * Members(b) != {}
    ensures x in Members(a) && x in Members(b)
  {
    if forall y | y in a :: y !in b {
      assert false;
    }
    x :| x in a && x in b;
  }

  // ----- The index

  /** The limits of compression: MAXNUMRANGE and MAXNUMELTS. */
  datatype Limits = Limits(ranges: nat, elts: nat) {
    predicate Valid() {
      0 < ranges && elts <= INT_MAX
    }
  }

  /** A row, or a page under a key that holds at least the keys on it; with what is stored, and the word behind it. */
  datatype Tree = Leaf(row: seq<int>, behind: int) | Page(key: seq<int>, stored: seq<int>, behind: int, kids: seq<Tree>)

  /** What decompression makes of the stored key. */
  ghost function Seen(t: Tree, lim: Limits): Stored {
    var s := if t.Leaf? then t.row else t.stored;
    ReadBack(s + [t.behind], |s|, lim.ranges, lim.elts)
  }

  /** What g_int_compress may make of an inner key. */
  ghost predicate Compressed(key: seq<int>, stored: seq<int>, lim: Limits) {
    if |key| < 2 * lim.ranges then stored == key
    else BestKey(key, lim.ranges, stored) && |Covered(RangesOf(stored))| <= lim.elts
  }

  /** Rows are prepared, and every page has a compressed key that holds what is seen of the keys on it. */
  ghost predicate WellKeyed(t: Tree, lim: Limits) {
    match t
    case Leaf(row, _) => Prepared(row)
    case Page(key, stored, _, kids) =>
      && Prepared(key) && Compressed(key, stored, lim)
      && forall k | k in kids :: WellKeyed(k, lim) && Seen(k, lim).Key? && Members(Seen(k, lim).s) <= Members(key)
  }

  /** A new page over keys as they are seen: their union, compressed, or an error if every cover is too large. */
  method MakePage(kids: seq<Tree>, seen: seq<seq<int>>, behind: int, sort: seq<int> -> seq<int>, lim: Limits)
    returns (key: seq<int>, k: Stored)
    requires lim.Valid() && Sorts(sort) && |seen| == |kids|
    requires forall i | 0 <= i < |kids| :: WellKeyed(kids[i], lim) && Seen(kids[i], lim) == Key(seen[i]) && Prepared(seen[i])
    ensures Prepared(key) && Members(key) == AllMembers(seen)
    ensures k.Key? ==> WellKeyed(Page(key, k.s, behind, kids), lim)
    ensures !k.Key? ==> forall f | Covers(key, lim.ranges, f) :: |Covered(f)| > lim.elts
  {
    key := Union(seen, sort);
    forall i | 0 <= i < |key|
      ensures IsInt32(key[i])
    {
      assert key[i] in Members(key);
    }
    k := Compress(key, lim.ranges, lim.elts);
    forall i | 0 <= i < |kids|
      ensures Members(seen[i]) <= Members(key)
    {
      assert seen[i] in seen;
    }
  }

  /** A page key is seen again as a superset of what was compressed, unless it was long and ends at the largest int. */
  lemma {:induction false} PageIsSeen(t: Tree, lim: Limits)
    requires t.Page? && lim.Valid() && Prepared(t.key) && Compressed(t.key, t.stored, lim)
    ensures Seen(t, lim).Key? <==> |t.key| < 2 * lim.ranges || t.key[|t.key| - 1] < INT_MAX
    ensures Seen(t, lim).Key? ==> StrictlyIncreasing(Seen(t, lim).s) && Members(t.key) <= Members(Seen(t, lim).s)
  {
    var key, stored, words := t.key, t.stored, t.stored + [t.behind];
    assert words[..|stored|] == stored;
    assert Seen(t, lim) == ReadBack(words, |stored|, lim.ranges, lim.elts);
    KeyIsSeen(key, stored, words, lim);
  }

  lemma {:induction false} KeyIsSeen(key: seq<int>, stored: seq<int>, words: seq<int>, lim: Limits)
    requires lim.Valid() && Prepared(key) && Compressed(key, stored, lim) && |stored| < |words| && words[..|stored|] == stored
    ensures var k := ReadBack(words, |stored|, lim.ranges, lim.elts);
            && (k.Key? <==> |key| < 2 * lim.ranges || key[|key| - 1] < INT_MAX)
            && (k.Key? ==> StrictlyIncreasing(k.s) && Members(key) <= Members(k.s))
  {
    if |key| >= 2 * lim.ranges {
      assert IsInt32(key[|key| - 1]);
      LongKeyIsSeen(key, stored, words, lim);
    }
  }

  lemma {:induction false} LongKeyIsSeen(key: seq<int>, stored: seq<int>, words: seq<int>, lim: Limits)
    requires lim.Valid() && BestKey(key, lim.ranges, stored) && IsInt32(key[|key| - 1])
    requires |Covered(RangesOf(stored))| <= lim.elts && |stored| <= |words| && words[..|stored|] == stored
    ensures var k := ReadBack(words, |stored|, lim.ranges, lim.elts);
            && (k.Key? <==> key[|key| - 1] < INT_MAX)
            && (k.Key? ==> StrictlyIncreasing(k.s) && Members(key) <= Members(k.s))
  {
    CompressedReadsBack(key, lim.ranges, stored, words, lim.elts);
  }

  ghost predicate Below(t: Tree, row: seq<int>, x: int) {
    match t
    case Leaf(r, b) => r == row && b == x
    case Page(_, _, _, kids) => exists k | k in kids :: Below(k, row, x)
  }

  /** The search gets to a leaf with the row. */
  ghost predicate Hit(t: Tree, row: seq<int>, x: int, q: Query, lim: Limits)
    requires Asked(q)
  {
    && Seen(t, lim).Key?
    && match t
       case Leaf(r, b) => r == row && b == x && Passes(Seen(t, lim).s, q, true)
       case Page(_, _, _, kids) => Passes(Seen(t, lim).s, q, false) && exists k | k in kids :: Hit(k, row, x, q, lim)
  }

  /** Every key above a row that is seen as it is has all its members. */
  lemma {:induction false} KeyHolds(t: Tree, row: seq<int>, x: int, lim: Limits)
    requires lim.Valid() && WellKeyed(t, lim) && Below(t, row, x) && Seen(t, lim).Key?
    requires Seen(Leaf(row, x), lim) == Key(row)
    ensures Members(row) <= Members(Seen(t, lim).s)
  {
    if t.Page? {
      var k :| k in t.kids && Below(k, row, x);
      KeyHolds(k, row, x, lim);
      PageIsSeen(t, lim);
    }
  }

  /** No search loses a row that is seen as it is, an empty row contained in the query excepted. */
  lemma {:induction false} SearchLosesNothing(t: Tree, row: seq<int>, x: int, q: Query, lim: Limits)
    requires lim.Valid() && WellKeyed(t, lim) && Below(t, row, x) && Seen(t, lim).Key?
    requires Seen(Leaf(row, x), lim) == Key(row)
    requires Asked(q) && Satisfies(row, q) && (q.Within? ==> row != [])
    ensures Hit(t, row, x, q, lim)
  {
    if t.Leaf? {
      LeafIsExact(row, q);
    } else {
      KeyHolds(t, row, x, lim);
      InnerIsConsistent(row, q, Seen(t, lim).s);
      var k :| k in t.kids && Below(k, row, x);
      SearchLosesNothing(k, row, x, q, lim);
    }
  }

  /** The row is not empty, and is short or is read back as it was. */
  predicate Kept(row: seq<int>, x: int, lim: Limits) {
    && row != []
    && (|row| < 2 * lim.ranges
        || (PairsConsecutive(row) && |row| <= lim.elts && row[|row| - 1] < INT_MAX && (|row| % 2 == 1 ==> x == row[|row| - 1])))
  }

  /** Every search that a row satisfies finds it in every index that holds it. */
  ghost predicate AlwaysFound(row: seq<int>, x: int, lim: Limits) {
    forall t: Tree, q: Query | WellKeyed(t, lim) && Below(t, row, x) && (t.Page? ==> Seen(t, lim).Key?) && Asked(q) && Satisfies(row, q) ::
      Hit(t, row, x, q, lim)
  }

  lemma {:induction false} EmptyRowIsMissed(x: int, lim: Limits)
    requires lim.Valid()
    ensures !AlwaysFound([], x, lim)
  {
    var t, q := Page([], [], 0, [Leaf([], x)]), Within([]);
    assert Seen(t, lim) == Key([]) == Seen(t.kids[0], lim);
    assert t.kids[0] in t.kids && Below(t.kids[0], [], x);
    assert WellKeyed(t.kids[0], lim);
    assert WellKeyed(t, lim) && Below(t, [], x) && Satisfies([], q) && !Hit(t, [], x, q, lim);
  }

  /** Exactly the rows that are kept are found by every search, in every index. */
  lemma {:induction false} FoundExactly(row: seq<int>, x: int, lim: Limits)
    requires lim.Valid() && Prepared(row)
    ensures AlwaysFound(row, x, lim) <==> Kept(row, x, lim)
  {
    assert (row + [x])[..|row|] == row;
    if |row| >= 2 * lim.ranges {
      LongLeafReadsBack(row, x, lim.ranges, lim.elts);
    }
    assert Kept(row, x, lim) <==> row != [] && Seen(Leaf(row, x), lim) == Key(row);
    if row == [] {
      EmptyRowIsMissed(x, lim);
    } else if Seen(Leaf(row, x), lim) != Key(row) {
      var t, q := Leaf(row, x), Equals(row);
      assert WellKeyed(t, lim) && Below(t, row, x) && Satisfies(row, q) && !Hit(t, row, x, q, lim);
    } else {
      forall t: Tree, q: Query | WellKeyed(t, lim) && Below(t, row, x) && (t.Page? ==> Seen(t, lim).Key?) && Asked(q) && Satisfies(row, q)
        ensures Hit(t, row, x, q, lim)
      {
        SearchLosesNothing(t, row, x, q, lim);
      }
    }
  }
}
