/**
  The operators that write a new hstore value from old ones, contrib/hstore/hstore_op.c:
  concatenation and the three forms of deletion. Each runs once over its sorted
  operands and copies pairs into a block sized from them.
 */
module HsMerge {
  import opened Alloc
  import opened HsLayout
  import opened HsBuild
  import opened HsOrder
  import opened HsPairs
  import opened HsSearch

  /** HS_COPYITEM of pair i of a value. */
  method CopyFrom(b: Builder, hs: HStore, i: nat, ghost ps: seq<Pair>)
    requires hs == Pack(ps) && i < |ps| && b.Valid() && b.count < b.planned
    requires 2 * b.planned + b.len + PairLen(ps[i]) <= b.mem.Length && b.len + PairLen(ps[i]) < POS_LIMIT
    modifies b, b.mem
    ensures b.Valid() && b.pairs == old(b.pairs) + [ps[i]]
  {
    PackedOffsets(ps, i);
    PackedBytes(ps, i);
    var off, klen, vlen := Off(hs, 2 * i), KeyLen(hs, i), ValLen(hs, i);
    b.CopyItem(hs.str[off..off + (klen + vlen)], klen, vlen, ValIsNull(hs, i), ps[i]);
  }

  // ----- Concatenation

  /** What the merge of ps[..i] and qs[..j] has written. */
  ghost predicate Merged(out: seq<Pair>, ps: seq<Pair>, i: nat, qs: seq<Pair>, j: nat) {
    && i <= |ps| && j <= |qs|
    && Sorted(out) && ToMap(out) == ToMap(ps[..i]) + ToMap(qs[..j])
    && (i < |ps| ==> Under(out, ps[i].key)) && (j < |qs| ==> Under(out, qs[j].key))
    && |out| <= i + j && |StrOf(out)| <= |StrOf(ps[..i])| + |StrOf(qs[..j])|
  }

  /** The next pair is written; what follows it in its own list is above it. */
  lemma {:induction false} WrittenUnder(out: seq<Pair>, ps: seq<Pair>, i: nat)
    requires Sorted(ps) && i < |ps| && Under(out, ps[i].key)
    ensures i + 1 < |ps| ==> Under(out + [ps[i]], ps[i + 1].key)
  {
    if i + 1 < |ps| {
      SnocUnder(out, ps[i], ps[i + 1].key);
    }
  }

  lemma {:induction false} MapStep(ps: seq<Pair>, i: nat)
    requires i < |ps|
    ensures ToMap(ps[..i + 1]) == ToMap(ps[..i])[ps[i].key := ps[i].val]
    ensures |StrOf(ps[..i + 1])| == |StrOf(ps[..i])| + PairLen(ps[i])
  {
    Snoc(ps, i);
    StrSnoc(ps[..i + 1], ps[..i], ps[i]);
  }

  lemma {:induction false} TakeLeft(out: seq<Pair>, ps: seq<Pair>, i: nat, qs: seq<Pair>, j: nat)
    requires Merged(out, ps, i, qs, j) && Sorted(ps) && i < |ps| && (j < |qs| ==> KeyLess(ps[i].key, qs[j].key))
    ensures Merged(out + [ps[i]], ps, i + 1, qs, j)
  {
    MapStep(ps, i);
    NotUnder(out, ps[i].key);
    LeftUpdate(ToMap(ps[..i]), ToMap(qs[..j]), ps[i].key, ps[i].val);
    SnocSorted(out, ps[i]);
    StrSnoc(out + [ps[i]], out, ps[i]);
    WrittenUnder(out, ps, i);
    if j < |qs| {
      SnocUnder(out, ps[i], qs[j].key);
    }
  }

  lemma {:induction false} TakeRight(out: seq<Pair>, ps: seq<Pair>, i: nat, qs: seq<Pair>, j: nat)
    requires Merged(out, ps, i, qs, j) && Sorted(qs) && j < |qs| && (i < |ps| ==> KeyLess(qs[j].key, ps[i].key))
    ensures Merged(out + [qs[j]], ps, i, qs, j + 1)
  {
    MapStep(qs, j);
    RightUpdate(ToMap(ps[..i]), ToMap(qs[..j]), qs[j].key, qs[j].val);
    SnocSorted(out, qs[j]);
    StrSnoc(out + [qs[j]], out, qs[j]);
    WrittenUnder(out, qs, j);
    if i < |ps| {
      SnocUnder(out, qs[j], ps[i].key);
    }
  }

  lemma {:induction false} TakeBoth(out: seq<Pair>, ps: seq<Pair>, i: nat, qs: seq<Pair>, j: nat)
    requires Merged(out, ps, i, qs, j) && Sorted(ps) && Sorted(qs) && i < |ps| && j < |qs| && ps[i].key == qs[j].key
    ensures Merged(out + [qs[j]], ps, i + 1, qs, j + 1)
  {
    MapStep(ps, i);
    MapStep(qs, j);
    BothUpdate(ToMap(ps[..i]), ToMap(qs[..j]), qs[j].key, ps[i].val, qs[j].val);
    SnocSorted(out, qs[j]);
    StrSnoc(out + [qs[j]], out, qs[j]);
    WrittenUnder(out, qs, j);
    if i + 1 < |ps| {
      SnocUnder(out, qs[j], ps[i + 1].key);
    }
  }

  lemma {:induction false} LeftUpdate<K, V>(m: map<K, V>, n: map<K, V>, k: K, v: V)
    requires k !in m + n
    ensures (m + n)[k := v] == m[k := v] + n
  {
  }

  lemma {:induction false} RightUpdate<K, V>(m: map<K, V>, n: map<K, V>, k: K, v: V)
    ensures (m + n)[k := v] == m + n[k := v]
  {
  }

  lemma {:induction false} BothUpdate<K, V>(m: map<K, V>, n: map<K, V>, k: K, v: V, w: V)
    ensures (m + n)[k := w] == m[k := v] + n[k := w]
  {
  }

  /** hstore_concat: the pairs of both, those of the right operand where a key is in both; an error past the allocation limit. */
  method Concat(s1: HStore, s2: HStore, ghost m: map<Bytes, Value>, ghost n: map<Bytes, Value>) returns (r: Option<HStore>)
    requires Represents(s1, m) && Represents(s2, n)
    ensures r.Some? <==> VarSize(s1) + VarSize(s2) <= MAX_ALLOC
    ensures r.Some? ==> Represents(r.value, m + n)
  {
    if VarSize(s1) + VarSize(s2) > MAX_ALLOC {
      return None;
    }
    if Count(s1) == 0 {
      NoPairs(s1, m);
      assert m + n == n;
      return Some(s2);
    }
    if Count(s2) == 0 {
      NoPairs(s2, n);
      assert m + n == m;
      return Some(s1);
    }
    ghost var ps: seq<Pair> :| Sorted(ps) && Fits(ps) && s1 == Pack(ps) && ToMap(ps) == m;
    ghost var qs: seq<Pair> :| Sorted(qs) && Fits(qs) && s2 == Pack(qs) && ToMap(qs) == n;
    var out := Merge(s1, s2, ps, qs);
    r := Some(out);
  }

  lemma {:induction false} NoPairs(hs: HStore, m: map<Bytes, Value>)
    requires Represents(hs, m) && Count(hs) == 0
    ensures m == map[]
  {
  }

  method Merge(s1: HStore, s2: HStore, ghost ps: seq<Pair>, ghost qs: seq<Pair>) returns (out: HStore)
    requires s1 == Pack(ps) && Sorted(ps) && s2 == Pack(qs) && Sorted(qs) && VarSize(s1) + VarSize(s2) <= MAX_ALLOC
    ensures Represents(out, ToMap(ps) + ToMap(qs))
  {
    var planned, bytes := Count(s1) + Count(s2), |s1.str| + |s2.str|;
    assert planned == |ps| + |qs| && bytes == |StrOf(ps)| + |StrOf(qs)|;
    var b := new Builder(planned, bytes);
    MergeInto(b, s1, s2, ps, qs);
    ghost var rs := b.pairs;
    out := b.Finalize();
    MergedFits(rs, ps, qs, out);
  }

  lemma {:induction false} MergedFits(rs: seq<Pair>, ps: seq<Pair>, qs: seq<Pair>, out: HStore)
    requires Sorted(rs) && out == Pack(rs) && |rs| <= |ps| + |qs| && |StrOf(rs)| <= |StrOf(ps)| + |StrOf(qs)|
    requires DataSize(|ps|, |StrOf(ps)|) + DataSize(|qs|, |StrOf(qs)|) <= MAX_ALLOC
    ensures Represents(out, ToMap(rs))
  {
    assert Fits(rs);
  }

  lemma {:induction false} MergedAll(out: seq<Pair>, ps: seq<Pair>, qs: seq<Pair>)
    requires Merged(out, ps, |ps|, qs, |qs|)
    ensures Sorted(out) && ToMap(out) == ToMap(ps) + ToMap(qs)
    ensures |out| <= |ps| + |qs| && |StrOf(out)| <= |StrOf(ps)| + |StrOf(qs)|
  {
    assert ps[..|ps|] == ps && qs[..|qs|] == qs;
  }

  /** The block has room for both lists. */
  ghost predicate Roomy(b: Builder, ps: seq<Pair>, qs: seq<Pair>)
    reads b, b.mem
  {
    && b.Valid() && b.planned == |ps| + |qs|
    && b.mem.Length == 2 * b.planned + |StrOf(ps)| + |StrOf(qs)| && |StrOf(ps)| + |StrOf(qs)| < POS_LIMIT
  }

  method MergeInto(b: Builder, s1: HStore, s2: HStore, ghost ps: seq<Pair>, ghost qs: seq<Pair>)
    requires s1 == Pack(ps) && Sorted(ps) && s2 == Pack(qs) && Sorted(qs) && Roomy(b, ps, qs) && b.pairs == []
    modifies b, b.mem
    ensures b.Valid() && Sorted(b.pairs) && ToMap(b.pairs) == ToMap(ps) + ToMap(qs)
    ensures |b.pairs| <= |ps| + |qs| && |StrOf(b.pairs)| <= |StrOf(ps)| + |StrOf(qs)|
  {
    var i, j := 0, 0;
    while i < Count(s1) || j < Count(s2)
      invariant Roomy(b, ps, qs) && i <= |ps| && j <= |qs| && Merged(b.pairs, ps, i, qs, j)
      decreases |ps| - i + |qs| - j
    {
      var difference := if i >= Count(s1) then 1 else if j >= Count(s2) then -1 else Compare(s1, i, s2, j, ps, qs);
      if difference >= 0 {
        CopyRight(b, s2, i, j, difference == 0, ps, qs);
        j := j + 1;
        if difference == 0 {
          i := i + 1;
        }
      } else {
        CopyLeft(b, s1, i, j, ps, qs);
        i := i + 1;
      }
    }
    MergedAll(b.pairs, ps, qs);
  }

  method CopyLeft(b: Builder, s1: HStore, i: nat, ghost j: nat, ghost ps: seq<Pair>, ghost qs: seq<Pair>)
    requires s1 == Pack(ps) && Sorted(ps) && Roomy(b, ps, qs) && Merged(b.pairs, ps, i, qs, j)
    requires i < |ps| && (j < |qs| ==> KeyLess(ps[i].key, qs[j].key))
    modifies b, b.mem
    ensures Roomy(b, ps, qs) && Merged(b.pairs, ps, i + 1, qs, j)
  {
    RoomFor(b.pairs, ps, i, qs, j);
    TakeLeft(b.pairs, ps, i, qs, j);
    CopyFrom(b, s1, i, ps);
  }

  method CopyRight(b: Builder, s2: HStore, ghost i: nat, j: nat, ghost both: bool, ghost ps: seq<Pair>, ghost qs: seq<Pair>)
    requires s2 == Pack(qs) && Sorted(ps) && Sorted(qs) && Roomy(b, ps, qs) && Merged(b.pairs, ps, i, qs, j) && j < |qs|
    requires if both then i < |ps| && ps[i].key == qs[j].key else i < |ps| ==> KeyLess(qs[j].key, ps[i].key)
    modifies b, b.mem
    ensures Roomy(b, ps, qs) && Merged(b.pairs, ps, if both then i + 1 else i, qs, j + 1)
  {
    RoomFor(b.pairs, qs, j, ps, i);
    if both {
      TakeBoth(b.pairs, ps, i, qs, j);
    } else {
      TakeRight(b.pairs, ps, i, qs, j);
    }
    CopyFrom(b, s2, j, qs);
  }

  /** The comparison of two keys in place; the order of the two keys. */
  function Compare(s1: HStore, i: nat, s2: HStore, j: nat, ghost ps: seq<Pair>, ghost qs: seq<Pair>): (d: int)
    requires s1 == Pack(ps) && s2 == Pack(qs) && i < |ps| && j < |qs|
    ensures d == 0 <==> ps[i].key == qs[j].key
    ensures d < 0 <==> KeyLess(ps[i].key, qs[j].key)
    ensures d > 0 <==> KeyLess(qs[j].key, ps[i].key)
  {
    PackedPair(ps, i);
    PackedPair(qs, j);
    KeyCmpZero(ps[i].key, qs[j].key);
    KeyCmpFlips(ps[i].key, qs[j].key);
    KeyCmp(KeyAt(s1, i), KeyAt(s2, j))
  }

  /** There is room for pair i, by what both lists hold. */
  lemma {:induction false} RoomFor(out: seq<Pair>, ps: seq<Pair>, i: nat, qs: seq<Pair>, j: nat)
    requires i < |ps| && j <= |qs| && |StrOf(out)| <= |StrOf(ps[..i])| + |StrOf(qs[..j])|
    ensures |StrOf(out)| + PairLen(ps[i]) <= |StrOf(ps)| + |StrOf(qs)|
  {
    StrStep(ps, i);
    StrPrefix(qs, j);
  }

  // ----- Deletion

  /** The pairs that satisfy keep, in their order. */
  ghost function Kept(ps: seq<Pair>, keep: Pair -> bool): seq<Pair> {
    if ps == [] then []
    else
      var front, p := Kept(ps[..|ps| - 1], keep), ps[|ps| - 1];
      if keep(p) then front + [p] else front
  }

  /** The map of the pairs that satisfy keep. */
  ghost function Chosen(m: map<Bytes, Value>, keep: Pair -> bool): map<Bytes, Value> {
    map k | k in m && keep(Pair(k, m[k])) :: m[k]
  }

  lemma {:induction false} KeptUnder(ps: seq<Pair>, keep: Pair -> bool, k: Bytes)
    requires Under(ps, k)
    ensures Under(Kept(ps, keep), k)
  {
    if ps != [] {
      KeptUnder(ps[..|ps| - 1], keep, k);
      assert KeyLess(ps[|ps| - 1].key, k);
    }
  }

  lemma {:induction false} KeptIsChosen(ps: seq<Pair>, keep: Pair -> bool)
    requires Sorted(ps)
    ensures Sorted(Kept(ps, keep)) && ToMap(Kept(ps, keep)) == Chosen(ToMap(ps), keep)
  {
    if ps != [] {
      var front, p := ps[..|ps| - 1], ps[|ps| - 1];
      KeptIsChosen(front, keep);
      assert Under(front, p.key);
      KeptUnder(front, keep, p.key);
      NotUnder(front, p.key);
      SnocSorted(Kept(front, keep), p);
      ChosenStep(ToMap(front), keep, p);
    }
  }

  lemma {:induction false} ChosenStep(m: map<Bytes, Value>, keep: Pair -> bool, p: Pair)
    requires p.key !in m
    ensures Chosen(m[p.key := p.val], keep) == if keep(p) then Chosen(m, keep)[p.key := p.val] else Chosen(m, keep)
  {
    assert p == Pair(p.key, p.val);
  }

  lemma {:induction false} KeptFits(ps: seq<Pair>, keep: Pair -> bool)
    ensures |Kept(ps, keep)| <= |ps| && |StrOf(Kept(ps, keep))| <= |StrOf(ps)|
  {
    if ps != [] {
      var front, p := ps[..|ps| - 1], ps[|ps| - 1];
      KeptFits(front, keep);
      Snoc(ps, |ps| - 1);
      StrSnoc(ps, front, p);
      StrSnoc(Kept(front, keep) + [p], Kept(front, keep), p);
    }
  }

  /** What a deletion has written of ps[..i] to a block as large as the value. */
  ghost predicate Thinned(b: Builder, ps: seq<Pair>, i: nat, keep: Pair -> bool)
    reads b, b.mem
  {
    && i <= |ps| && b.Valid() && b.pairs == Kept(ps[..i], keep) && b.planned == |ps|
    && b.mem.Length == 2 * b.planned + |StrOf(ps)| && |StrOf(ps)| < POS_LIMIT
  }

  method CopyIf(b: Builder, hs: HStore, i: nat, keeps: bool, ghost ps: seq<Pair>, ghost keep: Pair -> bool)
    requires hs == Pack(ps) && i < |ps| && Thinned(b, ps, i, keep) && keeps == keep(ps[i])
    modifies b, b.mem
    ensures Thinned(b, ps, i + 1, keep)
  {
    Snoc(ps, i);
    if keeps {
      KeptFits(ps[..i], keep);
      StrStep(ps, i);
      CopyFrom(b, hs, i, ps);
    }
  }

  /** HS_FINALIZE at the end of a deletion. */
  method Thin(b: Builder, ghost ps: seq<Pair>, ghost keep: Pair -> bool) returns (out: HStore)
    requires Sorted(ps) && Fits(ps) && Thinned(b, ps, |ps|, keep)
    modifies b.mem
    ensures Represents(out, Chosen(ToMap(ps), keep))
  {
    assert ps[..|ps|] == ps;
    KeptIsChosen(ps, keep);
    KeptFits(ps, keep);
    ghost var rs := b.pairs;
    out := b.Finalize();
    assert Sorted(rs) && Fits(rs) && out == Pack(rs);
  }

  /** hstore_delete. */
  method Delete(hs: HStore, key: Bytes, ghost m: map<Bytes, Value>) returns (out: HStore)
    requires Represents(hs, m)
    ensures Represents(out, m - {key})
  {
    ghost var ps: seq<Pair> :| Sorted(ps) && Fits(ps) && hs == Pack(ps) && ToMap(ps) == m;
    ghost var keep := (p: Pair) => p.key != key;
    var b := new Builder(Count(hs), |hs.str|);
    for i := 0 to Count(hs)
      invariant fresh(b.mem) && Thinned(b, ps, i, keep)
    {
      PackedPair(ps, i);
      CopyIf(b, hs, i, KeyAt(hs, i) != key, ps, keep);
    }
    out := Thin(b, ps, keep);
    ChosenWithout(m, keep, key);
  }

  lemma {:induction false} ChosenWithout(m: map<Bytes, Value>, keep: Pair -> bool, key: Bytes)
    requires forall p :: keep(p) <==> p.key != key
    ensures Chosen(m, keep) == m - {key}
  {
  }

  /** The keys of kp[..j] are behind pair i. */
  ghost predicate Passed(ps: seq<Pair>, i: nat, kp: seq<Pair>, j: nat) {
    i <= |ps| && j <= |kp| && (i < |ps| ==> Under(kp[..j], ps[i].key))
  }

  /** The pair at hand is before the next key: it has no equal, and the next pair has the same keys behind it. */
  lemma {:induction false} PassLeft(ps: seq<Pair>, i: nat, kp: seq<Pair>, j: nat)
    requires Passed(ps, i, kp, j) && Sorted(ps) && Sorted(kp) && i < |ps| && (j < |kp| ==> KeyLess(ps[i].key, kp[j].key))
    ensures ps[i].key !in ToMap(kp) && Passed(ps, i + 1, kp, j)
  {
    if j < |kp| {
      BackAbove(kp, j, ps[i].key);
    }
    NotBetween(kp, j, ps[i].key);
    if i + 1 < |ps| {
      UnderLess(kp[..j], ps[i].key, ps[i + 1].key);
    }
  }

  lemma {:induction false} PassRight(ps: seq<Pair>, i: nat, kp: seq<Pair>, j: nat)
    requires Passed(ps, i, kp, j) && Sorted(kp) && i < |ps| && j < |kp| && KeyLess(kp[j].key, ps[i].key)
    ensures Passed(ps, i, kp, j + 1)
  {
    FrontUnder(kp, j, ps[i].key);
  }

  lemma {:induction false} PassBoth(ps: seq<Pair>, i: nat, kp: seq<Pair>, j: nat)
    requires Passed(ps, i, kp, j) && Sorted(ps) && Sorted(kp) && i < |ps| && j < |kp| && ps[i].key == kp[j].key
    ensures Has(ToMap(kp), kp[j]) && Passed(ps, i + 1, kp, j + 1)
  {
    MapValue(kp, j);
    KeyCmpZero(kp[j].key, kp[j].key);
    FrontUnder(kp, j, ps[i].key);
    if i + 1 < |ps| {
      AtMostUnder(kp[..j + 1], ps[i].key, ps[i + 1].key);
    }
  }

  /** hstore_delete_array. */
  method DeleteArray(hs: HStore, keys: seq<Value>, sort: seq<Pair> -> seq<Pair>, ghost m: map<Bytes, Value>) returns (r: Option<HStore>)
    requires Represents(hs, m) && Sorts(sort)
    ensures r.Some? <==> FewKeys(keys)
    ensures r.Some? ==> Represents(r.value, map k | k in m && Str(k) !in keys :: m[k])
  {
    var keyPairs := ArrayToPairs(keys, sort);
    if keyPairs.None? {
      return None;
    }
    var kp := keyPairs.value;
    if |kp| == 0 {
      assert m == map k | k in m && Str(k) !in keys :: m[k];
      return Some(hs);
    }
    ghost var ps: seq<Pair> :| Sorted(ps) && Fits(ps) && hs == Pack(ps) && ToMap(ps) == m;
    var out := DeletePairs(hs, kp, ps);
    SameKeys(m, keys, ToMap(kp));
    return Some(out);
  }

  lemma {:induction false} SameKeys(m: map<Bytes, Value>, keys: seq<Value>, gone: map<Bytes, Value>)
    requires forall k :: k in gone <==> Str(k) in keys
    ensures (map k | k in m && Str(k) !in keys :: m[k]) == map k | k in m && k !in gone :: m[k]
  {
  }

  method DeletePairs(hs: HStore, kp: seq<Pair>, ghost ps: seq<Pair>) returns (out: HStore)
    requires hs == Pack(ps) && Sorted(ps) && Fits(ps) && Sorted(kp)
    ensures Represents(out, map k | k in ToMap(ps) && k !in ToMap(kp) :: ToMap(ps)[k])
  {
    ghost var m := ToMap(kp);
    ghost var keep := (p: Pair) => p.key !in m;
    var b := new Builder(Count(hs), |hs.str|);
    var i, j := 0, 0;
    while i < Count(hs)
      invariant fresh(b) && fresh(b.mem) && Thinned(b, ps, i, keep) && Passed(ps, i, kp, j)
      decreases |ps| - i + |kp| - j
    {
      i, j := DeletePair(b, hs, i, kp, j, ps, keep);
    }
    out := Thin(b, ps, keep);
  }

  method DeletePair(b: Builder, hs: HStore, i: nat, kp: seq<Pair>, j: nat, ghost ps: seq<Pair>, ghost keep: Pair -> bool)
    returns (i': nat, j': nat)
    requires hs == Pack(ps) && Sorted(ps) && Sorted(kp) && i < |ps| && Thinned(b, ps, i, keep) && Passed(ps, i, kp, j)
    requires forall p :: keep(p) <==> p.key !in ToMap(kp)
    modifies b, b.mem
    ensures Thinned(b, ps, i', keep) && Passed(ps, i', kp, j') && i <= i' && j <= j' && i + j < i' + j'
  {
    PackedPair(ps, i);
    var difference := if j >= |kp| then -1 else KeyCmp(KeyAt(hs, i), kp[j].key);
    if difference > 0 {
      KeyCmpFlips(ps[i].key, kp[j].key);
      PassRight(ps, i, kp, j);
      return i, j + 1;
    } else if difference == 0 {
      KeyCmpZero(ps[i].key, kp[j].key);
      PassBoth(ps, i, kp, j);
      CopyIf(b, hs, i, false, ps, keep);
      return i + 1, j + 1;
    } else {
      PassLeft(ps, i, kp, j);
      CopyIf(b, hs, i, true, ps, keep);
      return i + 1, j;
    }
  }

  /** hstore_delete_hstore: a pair goes only if the other value has the same key with the same value. */
  method DeleteHstore(hs: HStore, hs2: HStore, ghost m: map<Bytes, Value>, ghost n: map<Bytes, Value>) returns (out: HStore)
    requires Represents(hs, m) && Represents(hs2, n)
    ensures Represents(out, map k | k in m && !Has(n, Pair(k, m[k])) :: m[k])
  {
    ghost var ps: seq<Pair> :| Sorted(ps) && Fits(ps) && hs == Pack(ps) && ToMap(ps) == m;
    ghost var qs: seq<Pair> :| Sorted(qs) && Fits(qs) && hs2 == Pack(qs) && ToMap(qs) == n;
    if Count(hs2) == 0 {
      assert n == map[] && m == map k | k in m && !Has(n, Pair(k, m[k])) :: m[k];
      return hs;
    }
    out := DeleteEquals(hs, hs2, ps, qs);
  }

  method DeleteEquals(hs: HStore, hs2: HStore, ghost ps: seq<Pair>, ghost qs: seq<Pair>) returns (out: HStore)
    requires hs == Pack(ps) && Sorted(ps) && Fits(ps) && hs2 == Pack(qs) && Sorted(qs)
    ensures Represents(out, map k | k in ToMap(ps) && !Has(ToMap(qs), Pair(k, ToMap(ps)[k])) :: ToMap(ps)[k])
  {
    ghost var n := ToMap(qs);
    ghost var keep := (p: Pair) => !Has(n, p);
    var b := new Builder(Count(hs), |hs.str|);
    var i, j := 0, 0;
    while i < Count(hs)
      invariant fresh(b) && fresh(b.mem) && Thinned(b, ps, i, keep) && Passed(ps, i, qs, j)
      decreases |ps| - i + |qs| - j
    {
      i, j := DeleteEqual(b, hs, i, hs2, j, ps, qs, keep);
    }
    out := Thin(b, ps, keep);
  }

  method DeleteEqual(b: Builder, hs: HStore, i: nat, hs2: HStore, j: nat, ghost ps: seq<Pair>, ghost qs: seq<Pair>, ghost keep: Pair -> bool)
    returns (i': nat, j': nat)
    requires hs == Pack(ps) && Sorted(ps) && hs2 == Pack(qs) && Sorted(qs)
    requires i < |ps| && Thinned(b, ps, i, keep) && Passed(ps, i, qs, j)
    requires forall p :: keep(p) <==> !Has(ToMap(qs), p)
    modifies b, b.mem
    ensures Thinned(b, ps, i', keep) && Passed(ps, i', qs, j') && i <= i' && j <= j' && i + j < i' + j'
  {
    var difference := if j >= Count(hs2) then -1 else Compare(hs, i, hs2, j, ps, qs);
    if difference > 0 {
      PassRight(ps, i, qs, j);
      return i, j + 1;
    } else if difference == 0 {
      PackedPair(ps, i);
      PackedPair(qs, j);
      PassBoth(ps, i, qs, j);
      CopyIf(b, hs, i, ValAt(hs, i) != ValAt(hs2, j), ps, keep);
      return i + 1, j + 1;
    } else {
      PassLeft(ps, i, qs, j);
      CopyIf(b, hs, i, true, ps, keep);
      return i + 1, j;
    }
  }
}
