/**
  Looking keys up in a packed value, contrib/hstore/hstore_op.c: the binary
  search with its cached lower bound, and the functions that call it for a run of
  keys in increasing order.
 */
module HsSearch {
  import opened HsLayout
  import opened HsOrder
  import opened HsPairs

  /** No key of the list is above k. */
  ghost predicate AtMost(ps: seq<Pair>, k: Bytes) {
    forall i | 0 <= i < |ps| :: KeyCmp(ps[i].key, k) <= 0
  }

  /** The lower bound one search leaves behind serves the search for any larger key. */
  lemma {:induction false} AtMostUnder(ps: seq<Pair>, k: Bytes, next: Bytes)
    requires AtMost(ps, k) && KeyLess(k, next)
    ensures Under(ps, next)
  {
    forall i | 0 <= i < |ps| ensures KeyLess(ps[i].key, next) {
      KeyCmpZero(ps[i].key, k);
      if ps[i].key != k {
        KeyLessTransitive(ps[i].key, k, next);
      }
    }
  }

  /** The keys before a place of a sorted list are below the key at that place. */
  lemma {:induction false} FrontUnder(ps: seq<Pair>, i: nat, k: Bytes)
    requires Sorted(ps) && i < |ps| && KeyCmp(ps[i].key, k) <= 0
    ensures AtMost(ps[..i + 1], k)
    ensures KeyLess(ps[i].key, k) ==> Under(ps[..i + 1], k)
  {
    KeyCmpZero(ps[i].key, k);
    forall j | 0 <= j < i ensures KeyLess(ps[j].key, k) {
      if ps[i].key != k {
        KeyLessTransitive(ps[j].key, ps[i].key, k);
      }
    }
  }

  ghost predicate Above(ps: seq<Pair>, from: nat, k: Bytes) {
    forall i | from <= i < |ps| :: KeyLess(k, ps[i].key)
  }

  lemma {:induction false} BackAbove(ps: seq<Pair>, from: nat, k: Bytes)
    requires Sorted(ps) && from < |ps| && KeyLess(k, ps[from].key)
    ensures Above(ps, from, k)
  {
    forall i | from <= i < |ps| ensures KeyLess(k, ps[i].key) {
      if from < i {
        KeyLessTransitive(k, ps[from].key, ps[i].key);
      }
    }
  }

  lemma {:induction false} NotBetween(ps: seq<Pair>, at: nat, k: Bytes)
    requires at <= |ps| && Under(ps[..at], k) && Above(ps, at, k)
    ensures k !in ToMap(ps)
  {
    MapKeys(ps, k);
    KeyCmpZero(k, k);
    forall i | 0 <= i < |ps| ensures ps[i].key != k {
      assert i < at ==> ps[i] == ps[..at][i];
    }
  }

  /** hstoreFindKey. */
  method FindKey(hs: HStore, low: nat, key: Bytes, ghost ps: seq<Pair>) returns (idx: int, next: nat)
    requires hs == Pack(ps) && Sorted(ps) && low <= |ps| && Under(ps[..low], key)
    ensures -1 <= idx < |ps| && (0 <= idx <==> key in ToMap(ps))
    ensures 0 <= idx ==> low <= idx && next == idx + 1 && ps[idx] == Pair(key, ToMap(ps)[key])
    ensures low <= next <= |ps| && AtMost(ps[..next], key)
  {
    var stopLow, stopHigh := low, Count(hs);
    while stopLow < stopHigh
      invariant low <= stopLow <= stopHigh <= |ps|
      invariant Under(ps[..stopLow], key) && Above(ps, stopHigh, key)
    {
      var stopMiddle := stopLow + (stopHigh - stopLow) / 2;
      PackedPair(ps, stopMiddle);
      var difference := KeyCmp(KeyAt(hs, stopMiddle), key);
      KeyCmpZero(ps[stopMiddle].key, key);
      KeyCmpFlips(ps[stopMiddle].key, key);
      if difference == 0 {
        MapValue(ps, stopMiddle);
        FrontUnder(ps, stopMiddle, key);
        return stopMiddle, stopMiddle + 1;
      } else if difference < 0 {
        FrontUnder(ps, stopMiddle, key);
        stopLow := stopMiddle + 1;
      } else {
        BackAbove(ps, stopMiddle, key);
        stopHigh := stopMiddle;
      }
    }
    NotBetween(ps, stopLow, key);
    return -1, stopLow;
  }

  /** The value of a key, and where the next search may start. */
  method LookUp(hs: HStore, low: nat, key: Bytes, ghost ps: seq<Pair>) returns (found: Option<Value>, next: nat)
    requires hs == Pack(ps) && Sorted(ps) && low <= |ps| && Under(ps[..low], key)
    ensures low <= next <= |ps| && AtMost(ps[..next], key)
    ensures found == if key in ToMap(ps) then Some(ToMap(ps)[key]) else None
    ensures key in ToMap(ps) ==> low < next && ps[next - 1] == Pair(key, ToMap(ps)[key])
  {
    var idx;
    idx, next := FindKey(hs, low, key, ps);
    if idx < 0 {
      return None, next;
    }
    PackedPair(ps, idx);
    return Some(ValAt(hs, idx)), next;
  }

  /** hstore_fetchval: null also for a missing key. */
  method FetchVal(hs: HStore, key: Bytes, ghost m: map<Bytes, Value>) returns (v: Value)
    requires Represents(hs, m)
    ensures v == if key in m then m[key] else Null
  {
    ghost var ps: seq<Pair> :| Sorted(ps) && Fits(ps) && hs == Pack(ps) && ToMap(ps) == m;
    var found, _ := LookUp(hs, 0, key, ps);
    return if found.Some? then found.value else Null;
  }

  /** hstore_exists_any. */
  method ExistsAny(hs: HStore, keys: seq<Value>, sort: seq<Pair> -> seq<Pair>, ghost m: map<Bytes, Value>) returns (r: Option<bool>)
    requires Represents(hs, m) && Sorts(sort)
    ensures r == if FewKeys(keys) then Some(exists k :: k in m && Str(k) in keys) else None
  {
    var keyPairs := ArrayToPairs(keys, sort);
    if keyPairs.None? {
      return None;
    }
    var res := AnyFound(hs, keyPairs.value, m);
    assert res <==> exists k :: k in m && Str(k) in keys;
    return Some(res);
  }

  method AnyFound(hs: HStore, kp: seq<Pair>, ghost m: map<Bytes, Value>) returns (res: bool)
    requires Represents(hs, m) && Sorted(kp)
    ensures res <==> exists k :: k in m && k in ToMap(kp)
  {
    ghost var ps: seq<Pair> :| Sorted(ps) && Fits(ps) && hs == Pack(ps) && ToMap(ps) == m;
    var i := FirstWhere(hs, kp, true, ps);
    res := i < |kp|;
    if res {
      MapValue(kp, i);
    }
    forall k | k in m && !res ensures k !in ToMap(kp) {
      MapKeys(kp, k);
    }
  }

  /** hstore_exists_all. */
  method ExistsAll(hs: HStore, keys: seq<Value>, sort: seq<Pair> -> seq<Pair>, ghost m: map<Bytes, Value>) returns (r: Option<bool>)
    requires Represents(hs, m) && Sorts(sort)
    ensures r == if FewKeys(keys) then Some(forall k | Str(k) in keys :: k in m) else None
  {
    var keyPairs := ArrayToPairs(keys, sort);
    if keyPairs.None? {
      return None;
    }
    var res := AllFound(hs, keyPairs.value, m);
    assert res <==> forall k | Str(k) in keys :: k in m;
    return Some(res);
  }

  method AllFound(hs: HStore, kp: seq<Pair>, ghost m: map<Bytes, Value>) returns (res: bool)
    requires Represents(hs, m) && Sorted(kp)
    ensures res <==> forall k | k in ToMap(kp) :: k in m
  {
    ghost var ps: seq<Pair> :| Sorted(ps) && Fits(ps) && hs == Pack(ps) && ToMap(ps) == m;
    var i := FirstWhere(hs, kp, false, ps);
    res := i == |kp|;
    if !res {
      MapValue(kp, i);
    }
    forall k | k in ToMap(kp) && res ensures k in m {
      MapKeys(kp, k);
    }
  }

  /** The loop of both: keys in increasing order, until one is found, or until one is not. */
  method FirstWhere(hs: HStore, kp: seq<Pair>, found: bool, ghost ps: seq<Pair>) returns (i: nat)
    requires hs == Pack(ps) && Sorted(ps) && Sorted(kp)
    ensures i <= |kp| && (i < |kp| ==> (kp[i].key in ToMap(ps)) == found)
    ensures forall j | 0 <= j < i :: (kp[j].key in ToMap(ps)) != found
  {
    i := 0;
    var low := 0;
    while i < |kp|
      invariant i <= |kp| && low <= |ps| && (i < |kp| ==> Under(ps[..low], kp[i].key))
      invariant forall j | 0 <= j < i :: (kp[j].key in ToMap(ps)) != found
    {
      var idx, next := FindKey(hs, low, kp[i].key, ps);
      if (0 <= idx) == found {
        return;
      }
      if i + 1 < |kp| {
        AtMostUnder(ps[..next], kp[i].key, kp[i + 1].key);
      }
      i, low := i + 1, next;
    }
  }

  /** Every pair of m is one of n. */
  ghost predicate SubMap(m: map<Bytes, Value>, n: map<Bytes, Value>) {
    forall k | k in m :: k in n && n[k] == m[k]
  }

  /** hstore_contains. */
  method Contains(val: HStore, tmpl: HStore, ghost m: map<Bytes, Value>, ghost n: map<Bytes, Value>) returns (res: bool)
    requires Represents(val, m) && Represents(tmpl, n)
    ensures res <==> SubMap(n, m)
  {
    ghost var vs: seq<Pair> :| Sorted(vs) && Fits(vs) && val == Pack(vs) && ToMap(vs) == m;
    ghost var ts: seq<Pair> :| Sorted(ts) && Fits(ts) && tmpl == Pack(ts) && ToMap(ts) == n;
    res := FindAll(val, tmpl, vs, ts);
  }

  method FindAll(val: HStore, tmpl: HStore, ghost vs: seq<Pair>, ghost ts: seq<Pair>) returns (res: bool)
    requires val == Pack(vs) && Sorted(vs) && tmpl == Pack(ts) && Sorted(ts)
    ensures res <==> SubMap(ToMap(ts), ToMap(vs))
  {
    var i: nat, low: nat := 0, 0;
    while i < Count(tmpl)
      invariant i <= |ts| && low <= |vs| && (i < |ts| ==> Under(vs[..low], ts[i].key))
      invariant forall j | 0 <= j < i :: Has(ToMap(vs), ts[j])
    {
      var found;
      found, low := FindOne(val, tmpl, i, low, vs, ts);
      if !found {
        MapValue(ts, i);
        return false;
      }
      i := i + 1;
    }
    AllIsSubMap(ts, ToMap(vs));
    return true;
  }

  /** Whether pair i of the template is in the value, from the lower bound the pair before it left. */
  method FindOne(val: HStore, tmpl: HStore, i: nat, low: nat, ghost vs: seq<Pair>, ghost ts: seq<Pair>) returns (found: bool, next: nat)
    requires val == Pack(vs) && Sorted(vs) && tmpl == Pack(ts) && Sorted(ts)
    requires i < |ts| && low <= |vs| && Under(vs[..low], ts[i].key)
    ensures found <==> Has(ToMap(vs), ts[i])
    ensures next <= |vs| && (i + 1 < |ts| ==> Under(vs[..next], ts[i + 1].key))
  {
    assert KeyAt(tmpl, i) == ts[i].key && ValAt(tmpl, i) == ts[i].val by {
      PackedPair(ts, i);
    }
    var v;
    v, next := LookUp(val, low, KeyAt(tmpl, i), vs);
    found := v == Some(ValAt(tmpl, i));
    if i + 1 < |ts| {
      AtMostUnder(vs[..next], ts[i].key, ts[i + 1].key);
    }
  }

  ghost predicate Has(m: map<Bytes, Value>, p: Pair) {
    p.key in m && m[p.key] == p.val
  }

  lemma {:induction false} AllIsSubMap(ts: seq<Pair>, m: map<Bytes, Value>)
    requires Sorted(ts) && forall j | 0 <= j < |ts| :: Has(m, ts[j])
    ensures SubMap(ToMap(ts), m)
  {
    forall k | k in ToMap(ts) ensures k in m && m[k] == ToMap(ts)[k] {
      MapKeys(ts, k);
      var j :| 0 <= j < |ts| && ts[j].key == k;
      MapValue(ts, j);
    }
  }

  // ----- Slices

  /** The part of m whose keys satisfy a key list. */
  ghost function Restricted(m: map<Bytes, Value>, kp: seq<Pair>): map<Bytes, Value> {
    map k | k in m && k in ToMap(kp) :: m[k]
  }

  /** What the slice loop has collected after looking up kp[..i]. */
  ghost predicate Sliced(out: seq<Pair>, ps: seq<Pair>, low: nat, kp: seq<Pair>, i: nat) {
    && i <= |kp| && low <= |ps|
    && Sorted(out) && ToMap(out) == Restricted(ToMap(ps), kp[..i])
    && (i < |kp| ==> Under(out, kp[i].key) && Under(ps[..low], kp[i].key))
    && |out| <= low && |StrOf(out)| <= |StrOf(ps[..low])|
  }

  lemma {:induction false} SliceMiss(out: seq<Pair>, ps: seq<Pair>, low: nat, kp: seq<Pair>, i: nat, next: nat)
    requires Sliced(out, ps, low, kp, i) && i < |kp| && Sorted(kp) && kp[i].key !in ToMap(ps)
    requires low <= next <= |ps| && AtMost(ps[..next], kp[i].key)
    ensures Sliced(out, ps, next, kp, i + 1)
  {
    Snoc(kp, i);
    RestrictedStep(ToMap(ps), kp, i);
    StrGrows(ps, low, next);
    if i + 1 < |kp| {
      AtMostUnder(ps[..next], kp[i].key, kp[i + 1].key);
      UnderLess(out, kp[i].key, kp[i + 1].key);
    }
  }

  lemma {:induction false} SliceHit(out: seq<Pair>, ps: seq<Pair>, low: nat, kp: seq<Pair>, i: nat, idx: nat)
    requires Sliced(out, ps, low, kp, i) && i < |kp| && Sorted(kp) && low <= idx < |ps|
    requires kp[i].key in ToMap(ps) && ps[idx] == Pair(kp[i].key, ToMap(ps)[kp[i].key]) && AtMost(ps[..idx + 1], kp[i].key)
    ensures Sliced(out + [ps[idx]], ps, idx + 1, kp, i + 1)
    ensures |StrOf(out + [ps[idx]])| == |StrOf(out)| + PairLen(ps[idx])
  {
    RestrictedStep(ToMap(ps), kp, i);
    SnocSorted(out, ps[idx]);
    StrGrows(ps, low, idx);
    StrStep(ps, idx);
    StrSnoc(out + [ps[idx]], out, ps[idx]);
    if i + 1 < |kp| {
      AtMostUnder(ps[..idx + 1], kp[i].key, kp[i + 1].key);
      SnocUnder(out, ps[idx], kp[i + 1].key);
    }
  }

  lemma {:induction false} SliceDone(out: seq<Pair>, ps: seq<Pair>, low: nat, kp: seq<Pair>)
    requires Sliced(out, ps, low, kp, |kp|)
    ensures ToMap(out) == Restricted(ToMap(ps), kp) && |out| <= |ps| && |StrOf(out)| <= |StrOf(ps)|
  {
    assert kp[..|kp|] == kp;
    StrPrefix(ps, low);
  }

  lemma {:induction false} RestrictedStep(m: map<Bytes, Value>, kp: seq<Pair>, i: nat)
    requires i < |kp|
    ensures var r, k := Restricted(m, kp[..i]), kp[i].key;
            Restricted(m, kp[..i + 1]) == if k in m then r[k := m[k]] else r
  {
    Snoc(kp, i);
  }

  lemma {:induction false} StrGrows(ps: seq<Pair>, a: nat, b: nat)
    requires a <= b <= |ps|
    ensures |StrOf(ps[..a])| <= |StrOf(ps[..b])|
  {
    StrPrefix(ps[..b], a);
    assert ps[..b][..a] == ps[..a];
  }

  lemma {:induction false} UnderLess(ps: seq<Pair>, k: Bytes, next: Bytes)
    requires Under(ps, k) && KeyLess(k, next)
    ensures Under(ps, next)
  {
    forall i | 0 <= i < |ps| ensures KeyLess(ps[i].key, next) {
      KeyLessTransitive(ps[i].key, k, next);
    }
  }

  /** hstore_slice_to_hstore: the pairs whose keys are in the array; they always fit. */
  method Slice(hs: HStore, keys: seq<Value>, sort: seq<Pair> -> seq<Pair>, ghost m: map<Bytes, Value>) returns (r: Option<HStore>)
    requires Represents(hs, m) && Sorts(sort)
    ensures r.Some? <==> FewKeys(keys)
    ensures r.Some? ==> Represents(r.value, map k | k in m && Str(k) in keys :: m[k])
  {
    var keyPairs := ArrayToPairs(keys, sort);
    if keyPairs.None? {
      return None;
    }
    ghost var kp := keyPairs.value;
    var out := SliceOf(hs, keyPairs.value, m);
    assert Restricted(m, kp) == map k | k in m && Str(k) in keys :: m[k];
    return Some(out);
  }

  method SliceOf(hs: HStore, kp: seq<Pair>, ghost m: map<Bytes, Value>) returns (hs': HStore)
    requires Represents(hs, m) && Sorted(kp)
    ensures Represents(hs', Restricted(m, kp))
  {
    ghost var ps: seq<Pair> :| Sorted(ps) && Fits(ps) && hs == Pack(ps) && ToMap(ps) == m;
    var out, bufsiz := Collect(hs, kp, ps);
    var r := Build(out, bufsiz);
    assert Sorted(out) && Fits(out) && r.value == Pack(out);
    return r.value;
  }

  method Collect(hs: HStore, kp: seq<Pair>, ghost ps: seq<Pair>) returns (out: seq<Pair>, bufsiz: nat)
    requires hs == Pack(ps) && Sorted(ps) && Sorted(kp)
    ensures Sorted(out) && ToMap(out) == Restricted(ToMap(ps), kp)
    ensures |out| <= |ps| && bufsiz == |StrOf(out)| <= |StrOf(ps)|
  {
    var i, low := 0, 0;
    out, bufsiz := [], 0;
    while i < |kp|
      invariant Sliced(out, ps, low, kp, i) && bufsiz == |StrOf(out)|
    {
      out, bufsiz, low := CollectOne(hs, kp, i, low, out, bufsiz, ps);
      i := i + 1;
    }
    SliceDone(out, ps, low, kp);
  }

  method CollectOne(hs: HStore, kp: seq<Pair>, i: nat, low: nat, out: seq<Pair>, bufsiz: nat, ghost ps: seq<Pair>)
    returns (out': seq<Pair>, bufsiz': nat, next: nat)
    requires hs == Pack(ps) && Sorted(ps) && Sorted(kp) && i < |kp| && Sliced(out, ps, low, kp, i) && bufsiz == |StrOf(out)|
    ensures Sliced(out', ps, next, kp, i + 1) && bufsiz' == |StrOf(out')|
  {
    var found;
    found, next := LookUp(hs, low, kp[i].key, ps);
    if found.Some? {
      SliceHit(out, ps, low, kp, i, next - 1);
      var p := Pair(kp[i].key, found.value);
      assert p == ps[next - 1];
      out', bufsiz' := out + [p], bufsiz + PairLen(p);
    } else {
      SliceMiss(out, ps, low, kp, i, next);
      out', bufsiz' := out, bufsiz;
    }
  }
}
