/**
  The order of hstore keys, by length and then by bytes, and sorted lists of
  pairs as maps.
 */
module HsOrder {
  import opened HsLayout

  /** memcmp on strings of equal length; positive, zero or negative. */
  function MemCmp(a: Bytes, b: Bytes): int
    requires |a| == |b|
  {
    if a == [] then 0
    else if a[0] != b[0] then a[0] - b[0]
    else MemCmp(a[1..], b[1..])
  }

  /** The comparison written out wherever two keys meet. */
  function KeyCmp(a: Bytes, b: Bytes): int {
    if |a| == |b| then MemCmp(a, b) else if |a| > |b| then 1 else -1
  }

  lemma {:induction false} MemCmpZero(a: Bytes, b: Bytes)
    requires |a| == |b|
    ensures MemCmp(a, b) == 0 <==> a == b
  {
    if a != [] {
      MemCmpZero(a[1..], b[1..]);
      assert a == [a[0]] + a[1..] && b == [b[0]] + b[1..];
    }
  }

  lemma {:induction false} MemCmpFlips(a: Bytes, b: Bytes)
    requires |a| == |b|
    ensures MemCmp(b, a) == -MemCmp(a, b)
  {
    if a != [] {
      MemCmpFlips(a[1..], b[1..]);
    }
  }

  lemma {:induction false} MemCmpTransitive(a: Bytes, b: Bytes, c: Bytes)
    requires |a| == |b| == |c| && MemCmp(a, b) <= 0 && MemCmp(b, c) <= 0
    ensures MemCmp(a, c) <= 0 && (MemCmp(a, b) < 0 || MemCmp(b, c) < 0 ==> MemCmp(a, c) < 0)
  {
    if a != [] && a[0] == b[0] == c[0] {
      MemCmpTransitive(a[1..], b[1..], c[1..]);
    }
  }

  lemma {:induction false} MemCmpDecides(a: Bytes, b: Bytes, j: nat)
    requires |a| == |b| && j < |a| && a[..j] == b[..j] && a[j] != b[j]
    ensures MemCmp(a, b) < 0 <==> a[j] < b[j]
  {
    if 0 < j {
      assert a[0] == a[..j][0] && b[0] == b[..j][0];
      assert a[1..][..j - 1] == a[..j][1..] && b[1..][..j - 1] == b[..j][1..];
      MemCmpDecides(a[1..], b[1..], j - 1);
    }
  }

  lemma {:induction false} FirstDifference(a: Bytes, b: Bytes) returns (j: nat)
    requires |a| == |b| && a != b
    ensures j < |a| && a[..j] == b[..j] && a[j] != b[j]
  {
    assert a != [];
    if a[0] != b[0] {
      j := 0;
    } else {
      assert a == [a[0]] + a[1..] && b == [b[0]] + b[1..];
      j := FirstDifference(a[1..], b[1..]);
      assert a[..j + 1] == [a[0]] + a[1..][..j] && b[..j + 1] == [b[0]] + b[1..][..j];
      j := j + 1;
    }
  }

  predicate KeyLess(a: Bytes, b: Bytes) {
    KeyCmp(a, b) < 0
  }

  /** Shorter keys come first; of two of one length, the one with the smaller byte where they first differ. */
  lemma {:induction false} KeyLessDecides(a: Bytes, b: Bytes)
    ensures KeyLess(a, b) <==> |a| < |b| || (|a| == |b| && exists j | 0 <= j < |a| :: a[..j] == b[..j] && a[j] < b[j])
  {
    if |a| == |b| && a != b {
      var j := FirstDifference(a, b);
      MemCmpDecides(a, b, j);
      forall k | 0 <= k < |a| && a[..k] == b[..k] && a[k] < b[k]
        ensures KeyLess(a, b)
      {
        MemCmpDecides(a, b, k);
      }
    } else {
      MemCmpSelf(a);
    }
  }

  lemma {:induction false} MemCmpSelf(a: Bytes)
    ensures MemCmp(a, a) == 0
  {
    if a != [] {
      MemCmpSelf(a[1..]);
    }
  }

  lemma {:induction false} KeyCmpZero(a: Bytes, b: Bytes)
    ensures KeyCmp(a, b) == 0 <==> a == b
  {
    if |a| == |b| {
      MemCmpZero(a, b);
    }
  }

  lemma {:induction false} KeyCmpFlips(a: Bytes, b: Bytes)
    ensures KeyCmp(b, a) < 0 <==> KeyCmp(a, b) > 0
    ensures KeyCmp(a, b) < 0 <==> KeyCmp(b, a) > 0
  {
    if |a| == |b| {
      MemCmpFlips(a, b);
    }
  }

  lemma {:induction false} KeyLessTransitive(a: Bytes, b: Bytes, c: Bytes)
    requires KeyLess(a, b) && KeyLess(b, c)
    ensures KeyLess(a, c)
  {
    if |a| == |b| == |c| {
      MemCmpTransitive(a, b, c);
    }
  }

  // ----- Sorted lists

  ghost predicate Sorted(ps: seq<Pair>) {
    forall i, j | 0 <= i < j < |ps| :: KeyLess(ps[i].key, ps[j].key)
  }

  /** Every key of the list is below k. */
  ghost predicate Under(ps: seq<Pair>, k: Bytes) {
    forall i | 0 <= i < |ps| :: KeyLess(ps[i].key, k)
  }

  function ToMap(ps: seq<Pair>): map<Bytes, Value> {
    if ps == [] then map[] else ToMap(ps[..|ps| - 1])[ps[|ps| - 1].key := ps[|ps| - 1].val]
  }

  lemma {:induction false} MapKeys(ps: seq<Pair>, k: Bytes)
    ensures k in ToMap(ps) <==> exists i :: 0 <= i < |ps| && ps[i].key == k
  {
    if ps != [] {
      var front := ps[..|ps| - 1];
      MapKeys(front, k);
      if k in ToMap(front) {
        var i :| 0 <= i < |front| && front[i].key == k;
        assert ps[i].key == k;
      }
      if i :| 0 <= i < |ps| && ps[i].key == k {
        assert i < |front| ==> front[i].key == k;
      }
    }
  }

  lemma {:induction false} MapValue(ps: seq<Pair>, i: nat)
    requires Sorted(ps) && i < |ps|
    ensures ps[i].key in ToMap(ps) && ToMap(ps)[ps[i].key] == ps[i].val
  {
    var n := |ps| - 1;
    if i < n {
      var front := ps[..n];
      MapValue(front, i);
      KeyCmpZero(ps[i].key, ps[n].key);
    }
  }

  lemma {:induction false} NotUnder(ps: seq<Pair>, k: Bytes)
    requires Under(ps, k)
    ensures k !in ToMap(ps)
  {
    MapKeys(ps, k);
    KeyCmpZero(k, k);
  }

  lemma {:induction false} SnocSorted(ps: seq<Pair>, p: Pair)
    requires Sorted(ps) && Under(ps, p.key)
    ensures Sorted(ps + [p]) && ToMap(ps + [p]) == ToMap(ps)[p.key := p.val]
  {
    assert (ps + [p])[..|ps + [p]| - 1] == ps;
  }

  lemma {:induction false} SnocUnder(ps: seq<Pair>, p: Pair, k: Bytes)
    requires Under(ps, p.key) && KeyLess(p.key, k)
    ensures Under(ps + [p], k)
  {
    forall i | 0 <= i < |ps + [p]| ensures KeyLess((ps + [p])[i].key, k) {
      if i < |ps| {
        KeyLessTransitive(ps[i].key, p.key, k);
      }
    }
  }

  lemma {:induction false} DropLast(a: seq<Pair>)
    requires Sorted(a) && a != []
    ensures Sorted(a[..|a| - 1]) && ToMap(a[..|a| - 1]) == ToMap(a) - {a[|a| - 1].key}
  {
    var front, last := a[..|a| - 1], a[|a| - 1];
    assert Under(front, last.key);
    NotUnder(front, last.key);
    MapDrop(ToMap(front), last.key, last.val);
  }

  lemma {:induction false} MapDrop<K, V>(m: map<K, V>, k: K, v: V)
    requires k !in m
    ensures m[k := v] - {k} == m
  {
  }

  /** Well-formed values are canonical: a map has one sorted list, and so one packed form. */
  lemma {:induction false} SortedIsUnique(a: seq<Pair>, b: seq<Pair>)
    requires Sorted(a) && Sorted(b) && ToMap(a) == ToMap(b)
    ensures a == b
    decreases |a|
  {
    if a == [] {
      if b != [] {
        MapValue(b, 0);
        assert false;
      }
    } else {
      SameLast(a, b);
      DropLast(a);
      DropLast(b);
      SortedIsUnique(a[..|a| - 1], b[..|b| - 1]);
      assert a == a[..|a| - 1] + [a[|a| - 1]] && b == b[..|b| - 1] + [b[|b| - 1]];
    }
  }

  lemma {:induction false} SameLast(a: seq<Pair>, b: seq<Pair>)
    requires Sorted(a) && Sorted(b) && ToMap(a) == ToMap(b) && a != []
    ensures b != [] && a[|a| - 1] == b[|b| - 1]
  {
    var n := |a| - 1;
    MapValue(a, n);
    MapKeys(b, a[n].key);
    var j :| 0 <= j < |b| && b[j].key == a[n].key;
    LastIsLast(a, b, j);
    MapValue(b, j);
  }

  lemma {:induction false} LastIsLast(a: seq<Pair>, b: seq<Pair>, j: nat)
    requires Sorted(a) && Sorted(b) && ToMap(a) == ToMap(b) && a != [] && j < |b| && b[j].key == a[|a| - 1].key
    ensures j == |b| - 1
  {
    if j < |b| - 1 {
      var k := b[|b| - 1].key;
      MapValue(b, |b| - 1);
      MapKeys(a, k);
      var i :| 0 <= i < |a| && a[i].key == k;
      KeyCmpFlips(k, b[j].key);
      KeyCmpZero(k, k);
      assert false;
    }
  }

  lemma {:induction false} LengthsGrow(ps: seq<Pair>, i: nat)
    requires Sorted(ps) && 0 < i < |ps|
    ensures |ps[i - 1].key| <= |ps[i].key|
  {
    assert KeyLess(ps[i - 1].key, ps[i].key);
    KeyLessDecides(ps[i - 1].key, ps[i].key);
  }

  // ----- Well-formed values

  /** The value is well formed and stands for the map: the packed form of its one sorted list. */
  ghost predicate Represents(hs: HStore, m: map<Bytes, Value>) {
    exists ps :: Sorted(ps) && Fits(ps) && hs == Pack(ps) && ToMap(ps) == m
  }

  /** A well-formed value stands for one map, and a map has one well-formed value. */
  lemma {:induction false} RepresentsOne(a: HStore, b: HStore, m: map<Bytes, Value>, n: map<Bytes, Value>)
    requires Represents(a, m) && Represents(b, n)
    ensures a == b <==> m == n
  {
    var ps :| Sorted(ps) && Fits(ps) && a == Pack(ps) && ToMap(ps) == m;
    var qs :| Sorted(qs) && Fits(qs) && b == Pack(qs) && ToMap(qs) == n;
    if m == n {
      SortedIsUnique(ps, qs);
    }
    if a == b {
      SamePack(ps, qs);
    }
  }

  lemma {:induction false} SamePack(ps: seq<Pair>, qs: seq<Pair>)
    requires Pack(ps) == Pack(qs)
    ensures ps == qs
  {
    assert |Pack(ps).entries| == 2 * |ps| && |Pack(qs).entries| == 2 * |qs|;
    forall i | 0 <= i < |ps| ensures ps[i] == qs[i] {
      PackedPair(ps, i);
      PackedPair(qs, i);
    }
  }

  lemma {:induction false} PackedAscends(ps: seq<Pair>, i: nat)
    requires Sorted(ps) && i + 1 < |ps|
    ensures var hs := Pack(ps);
            && |hs.entries| == 2 * |ps| && Readable(hs, i) && Readable(hs, i + 1)
            && KeyLess(KeyAt(hs, i), KeyAt(hs, i + 1))
  {
    PackedPair(ps, i);
    PackedPair(ps, i + 1);
    assert KeyLess(ps[i].key, ps[i + 1].key);
  }

  /** The keys of a well-formed value, as they are read: never shorter than the one before, and of one length in the order of bytes. */
  lemma {:induction false} KeysAscend(hs: HStore, m: map<Bytes, Value>, i: nat)
    requires Represents(hs, m) && i + 1 < Count(hs)
    ensures 2 * i + 3 < |hs.entries| && Readable(hs, i) && Readable(hs, i + 1)
    ensures var a, b := KeyAt(hs, i), KeyAt(hs, i + 1);
            |a| < |b| || (|a| == |b| && exists j | 0 <= j < |a| :: a[..j] == b[..j] && a[j] < b[j])
  {
    var ps :| Sorted(ps) && Fits(ps) && hs == Pack(ps) && ToMap(ps) == m;
    PackedAscends(ps, i);
    KeyLessDecides(KeyAt(hs, i), KeyAt(hs, i + 1));
  }
}
