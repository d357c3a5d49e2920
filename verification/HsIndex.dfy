/**
  The GiST index on hstore columns, contrib/hstore/hstore_gist.c: the signature of a
  row and the consistency tests. The CRC is some function from bytes to numbers.
 */
module HsIndex {
  import opened HsLayout
  import opened HsOrder
  import opened HsPairs
  import opened HsSearch
  import opened Signature
  import opened SignSearch

  const SIGLEN: nat := 16

  /** HASHVAL. */
  function Slot(crc: Bytes -> nat, b: Bytes): (i: nat)
    ensures i < 8 * SIGLEN
  {
    crc(b) % (8 * SIGLEN)
  }

  ghost function PairBits(p: Pair, crc: Bytes -> nat): set<nat> {
    {Slot(crc, p.key)} + if p.val.Null? then {} else {Slot(crc, p.val.s)}
  }

  /** The bits of a row: one for each key and each value that is not null. */
  ghost function RowBits(ps: seq<Pair>, crc: Bytes -> nat): set<nat> {
    if ps == [] then {} else RowBits(ps[..|ps| - 1], crc) + PairBits(ps[|ps| - 1], crc)
  }

  lemma {:induction false} RowBitsAt(ps: seq<Pair>, crc: Bytes -> nat, i: nat)
    requires i < |ps|
    ensures PairBits(ps[i], crc) <= RowBits(ps, crc)
  {
    if i < |ps| - 1 {
      RowBitsAt(ps[..|ps| - 1], crc, i);
    }
  }

  /** The leaf branch of ghstore_compress. */
  method CompressLeaf(hs: HStore, crc: Bytes -> nat, ghost ps: seq<Pair>) returns (k: Key)
    requires hs == Pack(ps)
    ensures k.Sign? && OfLen(k, SIGLEN) && KeyBits(k, SIGLEN) == RowBits(ps, crc)
  {
    var sign := new bv8[SIGLEN](_ => 0);
    BitsOfConstant(sign[..], 0);
    for i := 0 to Count(hs)
      invariant BitsOf(sign[..]) == RowBits(ps[..i], crc)
    {
      PackedPair(ps, i);
      Snoc(ps, i);
      SetBit(sign, Slot(crc, KeyAt(hs, i)));
      if !ValIsNull(hs, i) {
        SetBit(sign, Slot(crc, ValAt(hs, i).s));
      }
    }
    assert ps[..|ps|] == ps;
    k := Sign(sign[..]);
  }

  // ----- Queries

  datatype Query = Contains(qs: seq<Pair>) | Exists(key: Bytes) | ExistsAll(keys: seq<Value>) | ExistsAny(keys: seq<Value>)

  /** The operator on a row. */
  ghost predicate Satisfies(m: map<Bytes, Value>, q: Query) {
    match q
    case Contains(qs) => SubMap(ToMap(qs), m)
    case Exists(key) => key in m
    case ExistsAll(keys) => forall k | Str(k) in keys :: k in m
    case ExistsAny(keys) => exists k :: k in m && Str(k) in keys
  }

  /** What a key has to show to be looked below. */
  ghost predicate Passes(k: Key, q: Query, crc: Bytes -> nat) {
    var bits := KeyBits(k, SIGLEN);
    || k.AllTrue?
    || match q
       case Contains(qs) => RowBits(qs, crc) <= bits
       case Exists(key) => Slot(crc, key) in bits
       case ExistsAll(keys) => forall i | 0 <= i < |keys| && keys[i].Str? :: Slot(crc, keys[i].s) in bits
       case ExistsAny(keys) => exists i :: 0 <= i < |keys| && keys[i].Str? && Slot(crc, keys[i].s) in bits
  }

  /** ghstore_consistent, the strategy of containment. */
  method ConsistentContains(k: Key, query: HStore, crc: Bytes -> nat, ghost qs: seq<Pair>) returns (res: bool)
    requires OfLen(k, SIGLEN) && query == Pack(qs)
    ensures res <==> Passes(k, Contains(qs), crc)
  {
    if k.AllTrue? {
      return true;
    }
    for i := 0 to Count(query)
      invariant RowBits(qs[..i], crc) <= BitsOf(k.sign)
    {
      PackedPair(qs, i);
      Snoc(qs, i);
      RowBitsAt(qs, crc, i);
      BitIn(k.sign, Slot(crc, KeyAt(query, i)));
      if !GetBit(k.sign, Slot(crc, KeyAt(query, i))) {
        return false;
      }
      if !ValIsNull(query, i) {
        BitIn(k.sign, Slot(crc, ValAt(query, i).s));
        if !GetBit(k.sign, Slot(crc, ValAt(query, i).s)) {
          return false;
        }
      }
    }
    assert qs[..|qs|] == qs;
    res := true;
  }

  /** The strategies on keys: one key, all of an array, any of an array. */
  method ConsistentKeys(k: Key, q: Query, crc: Bytes -> nat) returns (res: bool)
    requires OfLen(k, SIGLEN) && !q.Contains?
    ensures res <==> Passes(k, q, crc)
  {
    if k.AllTrue? {
      return true;
    }
    match q {
      case Exists(key) =>
        BitIn(k.sign, Slot(crc, key));
        return GetBit(k.sign, Slot(crc, key));
      case ExistsAll(keys) =>
        for i := 0 to |keys|
          invariant forall j | 0 <= j < i && keys[j].Str? :: Slot(crc, keys[j].s) in BitsOf(k.sign)
        {
          if keys[i].Str? {
            BitIn(k.sign, Slot(crc, keys[i].s));
            if !GetBit(k.sign, Slot(crc, keys[i].s)) {
              return false;
            }
          }
        }
        return true;
      case ExistsAny(keys) =>
        for i := 0 to |keys|
          invariant forall j | 0 <= j < i && keys[j].Str? :: Slot(crc, keys[j].s) !in BitsOf(k.sign)
        {
          if keys[i].Str? {
            BitIn(k.sign, Slot(crc, keys[i].s));
            if GetBit(k.sign, Slot(crc, keys[i].s)) {
              return true;
            }
          }
        }
        return false;
    }
  }

  // ----- No answer is lost

  lemma {:induction false} KeyBit(ps: seq<Pair>, crc: Bytes -> nat, k: Bytes)
    requires k in ToMap(ps)
    ensures Slot(crc, k) in RowBits(ps, crc)
  {
    MapKeys(ps, k);
    var i :| 0 <= i < |ps| && ps[i].key == k;
    RowBitsAt(ps, crc, i);
  }

  lemma {:induction false} SubMapBits(qs: seq<Pair>, ps: seq<Pair>, crc: Bytes -> nat)
    requires Sorted(qs) && Sorted(ps) && SubMap(ToMap(qs), ToMap(ps))
    ensures RowBits(qs, crc) <= RowBits(ps, crc)
  {
    if qs != [] {
      var n := |qs| - 1;
      DropLast(qs);
      SubMapBits(qs[..n], ps, crc);
      MapValue(qs, n);
      MapKeys(ps, qs[n].key);
      var i :| 0 <= i < |ps| && ps[i].key == qs[n].key;
      MapValue(ps, i);
      assert ps[i] == qs[n];
      RowBitsAt(ps, crc, i);
    }
  }

  /** A row that satisfies the operator passes under every key that has its bits. */
  lemma {:induction false} SatisfyingRowPasses(ps: seq<Pair>, q: Query, crc: Bytes -> nat, k: Key)
    requires Sorted(ps) && (q.Contains? ==> Sorted(q.qs)) && Satisfies(ToMap(ps), q)
    requires RowBits(ps, crc) <= KeyBits(k, SIGLEN)
    ensures Passes(k, q, crc)
  {
    match q
    case Contains(qs) =>
      SubMapBits(qs, ps, crc);
    case Exists(key) =>
      KeyBit(ps, crc, key);
    case ExistsAll(keys) =>
      forall i | 0 <= i < |keys| && keys[i].Str? ensures Slot(crc, keys[i].s) in KeyBits(k, SIGLEN) {
        assert Str(keys[i].s) in keys;
        KeyBit(ps, crc, keys[i].s);
      }
    case ExistsAny(keys) =>
      var x :| x in ToMap(ps) && Str(x) in keys;
      KeyBit(ps, crc, x);
      var i :| 0 <= i < |keys| && keys[i] == Str(x);
      assert Slot(crc, keys[i].s) in KeyBits(k, SIGLEN);
  }

  // ----- No key passes in vain

  ghost predicate AllNull(ps: seq<Pair>) {
    forall i | 0 <= i < |ps| :: ps[i].val.Null?
  }

  lemma {:induction false} UnderLast(r: seq<Pair>, front: seq<Pair>, k: Bytes, last: Bytes)
    requires Under(front, last) && KeyLess(k, last) && forall x :: x in ToMap(r) <==> x in ToMap(front) || x == k
    ensures Under(r, last)
  {
    forall i | 0 <= i < |r| ensures KeyLess(r[i].key, last) {
      MapKeys(r, r[i].key);
      if r[i].key != k {
        MapKeys(front, r[i].key);
        var j :| 0 <= j < |front| && front[j].key == r[i].key;
      }
    }
  }

  /** A key more, with a null. */
  lemma {:induction false} WithKey(ps: seq<Pair>, k: Bytes) returns (r: seq<Pair>)
    requires Sorted(ps) && AllNull(ps)
    ensures Sorted(r) && AllNull(r) && forall x :: x in ToMap(r) <==> x in ToMap(ps) || x == k
  {
    var p := Pair(k, Null);
    if ps == [] {
      SnocSorted(ps, p);
      r := ps + [p];
    } else {
      var n := |ps| - 1;
      var front, last := ps[..n], ps[n];
      KeyCmpZero(last.key, k);
      KeyCmpFlips(last.key, k);
      if KeyLess(last.key, k) {
        DropLastUnder(ps, k);
        SnocSorted(ps, p);
        r := ps + [p];
      } else if last.key == k {
        r := ps;
      } else {
        r := WithKey(front, k);
        UnderLast(r, front, k, last.key);
        SnocSorted(r, last);
        r := r + [last];
      }
    }
  }

  /** A row with exactly the keys of an array. */
  lemma {:induction false} RowOfKeys(keys: seq<Value>) returns (ps: seq<Pair>)
    ensures Sorted(ps) && AllNull(ps) && forall k :: k in ToMap(ps) <==> Str(k) in keys
  {
    if keys == [] {
      ps := [];
    } else {
      var n := |keys| - 1;
      ps := RowOfKeys(keys[..n]);
      if keys[n].Str? {
        ps := WithKey(ps, keys[n].s);
      }
      assert keys == keys[..n] + [keys[n]];
    }
  }

  lemma {:induction false} BitsOfKeys(ps: seq<Pair>, crc: Bytes -> nat, bits: set<nat>)
    requires AllNull(ps) && forall k | k in ToMap(ps) :: Slot(crc, k) in bits
    ensures RowBits(ps, crc) <= bits
  {
    if ps != [] {
      var n := |ps| - 1;
      MapKeys(ps, ps[n].key);
      forall k | k in ToMap(ps[..n]) ensures Slot(crc, k) in bits {
        MapKeys(ps[..n], k);
        var i :| 0 <= i < n && ps[..n][i].key == k;
        assert ps[i].key == k;
        MapKeys(ps, k);
      }
      BitsOfKeys(ps[..n], crc, bits);
    }
  }

  /** A row of keys that a signature lets through. */
  lemma {:induction false} RowThatPasses(k: Key, q: Query, crc: Bytes -> nat) returns (ps: seq<Pair>)
    requires k.Sign? && Passes(k, q, crc) && (q.Contains? ==> Sorted(q.qs))
    ensures Sorted(ps) && RowBits(ps, crc) <= KeyBits(k, SIGLEN) && Satisfies(ToMap(ps), q)
  {
    match q
    case Contains(qs) =>
      ps := qs;
    case Exists(key) =>
      ps := RowOfKeys([Str(key)]);
      BitsOfKeys(ps, crc, KeyBits(k, SIGLEN));
    case ExistsAll(keys) =>
      ps := RowOfKeys(keys);
      BitsOfKeys(ps, crc, KeyBits(k, SIGLEN));
    case ExistsAny(keys) =>
      var i :| 0 <= i < |keys| && keys[i].Str? && Slot(crc, keys[i].s) in KeyBits(k, SIGLEN);
      ps := RowOfKeys([keys[i]]);
      BitsOfKeys(ps, crc, KeyBits(k, SIGLEN));
      assert keys[i].s in ToMap(ps) && Str(keys[i].s) in keys;
  }

  /** A signature that is not all ones passes exactly if some row with no more bits satisfies the operator. */
  lemma {:induction false} TestIsTight(k: Key, q: Query, crc: Bytes -> nat)
    requires k.Sign? && (q.Contains? ==> Sorted(q.qs))
    ensures Passes(k, q, crc) <==> exists ps :: Sorted(ps) && RowBits(ps, crc) <= KeyBits(k, SIGLEN) && Satisfies(ToMap(ps), q)
  {
    forall ps | Sorted(ps) && RowBits(ps, crc) <= KeyBits(k, SIGLEN) && Satisfies(ToMap(ps), q) ensures Passes(k, q, crc) {
      SatisfyingRowPasses(ps, q, crc, k);
    }
    if Passes(k, q, crc) {
      var ps := RowThatPasses(k, q, crc);
    }
  }

  // ----- The index

  /** Searching the index finds every row that satisfies the operator. */
  lemma {:induction false} IndexLosesNothing(t: SignSearch.Tree<seq<Pair>>, ps: seq<Pair>, q: Query, crc: Bytes -> nat)
    requires Sorted(ps) && (q.Contains? ==> Sorted(q.qs)) && Satisfies(ToMap(ps), q)
    requires Grown(t, SIGLEN, (r: seq<Pair>) => RowBits(r, crc)) && Below(t, ps)
    ensures Hit(t, ps, (k: Key) => Passes(k, q, crc), (k: Key) => Passes(k, q, crc))
  {
    forall k | RowBits(ps, crc) <= KeyBits(k, SIGLEN) ensures Passes(k, q, crc) {
      SatisfyingRowPasses(ps, q, crc, k);
    }
    SearchLosesNothing(t, ps, SIGLEN, (r: seq<Pair>) => RowBits(r, crc), (k: Key) => Passes(k, q, crc), (k: Key) => Passes(k, q, crc));
  }
}
