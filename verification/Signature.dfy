/**
  Signature keys of GiST indexes, contrib/hstore/hstore_gist.c and
  contrib/intarray/_intbig_gist.c: a bit vector of fixed length with one bit per
  hash value, or a flag for a vector of ones.
 */
module Signature {

  // ----- Bits of a byte vector

  function Mask(k: nat): bv8
    requires k < 8
  {
    if k == 0 then 0x01 else if k == 1 then 0x02 else if k == 2 then 0x04 else if k == 3 then 0x08
    else if k == 4 then 0x10 else if k == 5 then 0x20 else if k == 6 then 0x40 else 0x80
  }

  predicate Bit(b: bv8, k: nat)
    requires k < 8
  {
    b & Mask(k) != 0
  }

  lemma {:induction false} OrBit(a: bv8, b: bv8, k: nat)
    requires k < 8
    ensures Bit(a | b, k) <==> Bit(a, k) || Bit(b, k)
  {
  }

  lemma {:induction false} MaskBit(k: nat, m: nat)
    requires k < 8 && m < 8
    ensures Bit(Mask(k), m) <==> m == k
  {
  }

  lemma {:induction false} OnesBit(k: nat)
    requires k < 8
    ensures Bit(0xff, k) && !Bit(0x00, k)
  {
  }

  lemma {:induction false} OnesOnly(b: bv8)
    requires forall k | 0 <= k < 8 :: Bit(b, k)
    ensures b == 0xff
  {
    assert Bit(b, 0) && Bit(b, 1) && Bit(b, 2) && Bit(b, 3) && Bit(b, 4) && Bit(b, 5) && Bit(b, 6) && Bit(b, 7);
  }

  /** GETBIT. */
  predicate GetBit(sign: seq<bv8>, i: nat)
    requires i < 8 * |sign|
  {
    Bit(sign[i / 8], i % 8)
  }

  /** Bit i is in byte i / 8, i % 8 places from the lowest: what is left there after a shift. */
  lemma {:induction false} LowBitsFirst(sign: seq<bv8>, n: nat)
    requires n < |sign|
    ensures var b := sign[n];
            && (GetBit(sign, 8 * n) <==> b & 1 == 1) && (GetBit(sign, 8 * n + 1) <==> (b >> 1) & 1 == 1)
            && (GetBit(sign, 8 * n + 2) <==> (b >> 2) & 1 == 1) && (GetBit(sign, 8 * n + 3) <==> (b >> 3) & 1 == 1)
            && (GetBit(sign, 8 * n + 4) <==> (b >> 4) & 1 == 1) && (GetBit(sign, 8 * n + 5) <==> (b >> 5) & 1 == 1)
            && (GetBit(sign, 8 * n + 6) <==> (b >> 6) & 1 == 1) && (GetBit(sign, 8 * n + 7) <==> (b >> 7) & 1 == 1)
  {
    forall k: nat | k < 8 ensures GetBit(sign, 8 * n + k) == Bit(sign[n], k) {
      assert (8 * n + k) / 8 == n && (8 * n + k) % 8 == k;
    }
    Shifted(sign[n]);
  }

  lemma {:induction false} Shifted(b: bv8)
    ensures (Bit(b, 0) <==> b & 1 == 1) && (Bit(b, 1) <==> (b >> 1) & 1 == 1)
    ensures (Bit(b, 2) <==> (b >> 2) & 1 == 1) && (Bit(b, 3) <==> (b >> 3) & 1 == 1)
    ensures (Bit(b, 4) <==> (b >> 4) & 1 == 1) && (Bit(b, 5) <==> (b >> 5) & 1 == 1)
    ensures (Bit(b, 6) <==> (b >> 6) & 1 == 1) && (Bit(b, 7) <==> (b >> 7) & 1 == 1)
  {
  }

  predicate IsBit(i: nat, len: nat) {
    i < 8 * len
  }

  ghost function AllBits(len: nat): set<nat> {
    set i: nat | i < 8 * len && IsBit(i, len)
  }

  ghost function BitsOf(sign: seq<bv8>): set<nat> {
    set i: nat | i < 8 * |sign| && GetBit(sign, i)
  }

  lemma {:induction false} BitIn(sign: seq<bv8>, i: nat)
    requires i < 8 * |sign|
    ensures i in BitsOf(sign) <==> GetBit(sign, i)
  {
  }

  function Or(a: seq<bv8>, b: seq<bv8>): (c: seq<bv8>)
    requires |a| == |b|
    ensures |c| == |a| && forall i | 0 <= i < |c| :: c[i] == a[i] | b[i]
  {
    seq(|a|, i requires 0 <= i < |a| => a[i] | b[i])
  }

  lemma {:induction false} BitsOfOr(a: seq<bv8>, b: seq<bv8>)
    requires |a| == |b|
    ensures BitsOf(Or(a, b)) == BitsOf(a) + BitsOf(b)
  {
    forall i: nat | i < 8 * |a| ensures GetBit(Or(a, b), i) <==> GetBit(a, i) || GetBit(b, i) {
      OrBit(a[i / 8], b[i / 8], i % 8);
    }
  }

  lemma {:induction false} BitsOfConstant(sign: seq<bv8>, b: bv8)
    requires (b == 0 || b == 0xff) && forall i | 0 <= i < |sign| :: sign[i] == b
    ensures BitsOf(sign) == if b == 0 then {} else AllBits(|sign|)
  {
    forall i: nat | i < 8 * |sign| ensures GetBit(sign, i) <==> b == 0xff {
      OnesBit(i % 8);
    }
  }

  /** All bits are set only in a vector of ones. */
  lemma {:induction false} AllBitsAreOnes(sign: seq<bv8>, n: nat)
    requires n < |sign| && BitsOf(sign) == AllBits(|sign|)
    ensures sign[n] == 0xff
  {
    forall k: nat | k < 8 ensures Bit(sign[n], k) {
      var i := 8 * n + k;
      assert i / 8 == n && i % 8 == k;
      assert i in AllBits(|sign|);
      assert i in BitsOf(sign);
    }
    OnesOnly(sign[n]);
  }

  /** SETBIT. */
  method SetBit(sign: array<bv8>, i: nat)
    requires i < 8 * sign.Length
    modifies sign
    ensures BitsOf(sign[..]) == old(BitsOf(sign[..])) + {i}
  {
    ghost var was := sign[..];
    sign[i / 8] := sign[i / 8] | Mask(i % 8);
    ghost var now := sign[..];
    forall j: nat | j < 8 * |now| ensures GetBit(now, j) <==> GetBit(was, j) || j == i {
      if j / 8 == i / 8 {
        OrBit(was[i / 8], Mask(i % 8), j % 8);
        MaskBit(i % 8, j % 8);
      }
    }
  }

  // ----- Keys

  datatype Key = AllTrue | Sign(sign: seq<bv8>)

  ghost predicate OfLen(k: Key, len: nat) {
    k.Sign? ==> |k.sign| == len
  }

  /** The bits a key stands for. */
  ghost function KeyBits(k: Key, len: nat): set<nat> {
    if k.AllTrue? then AllBits(len) else BitsOf(k.sign)
  }

  lemma {:induction false} KeyBitsInside(k: Key, len: nat)
    requires OfLen(k, len)
    ensures KeyBits(k, len) <= AllBits(len)
  {
  }

  /** The union of the bits of some keys. */
  ghost function Union(ks: seq<Key>, len: nat): set<nat> {
    if ks == [] then {} else Union(ks[..|ks| - 1], len) + KeyBits(ks[|ks| - 1], len)
  }

  lemma {:induction false} UnionCovers(ks: seq<Key>, len: nat, i: nat)
    requires i < |ks|
    ensures KeyBits(ks[i], len) <= Union(ks, len)
  {
    if i < |ks| - 1 {
      UnionCovers(ks[..|ks| - 1], len, i);
    }
  }

  lemma {:induction false} UnionInside(ks: seq<Key>, len: nat)
    requires forall i | 0 <= i < |ks| :: OfLen(ks[i], len)
    ensures Union(ks, len) <= AllBits(len)
  {
    if ks != [] {
      UnionInside(ks[..|ks| - 1], len);
      KeyBitsInside(ks[|ks| - 1], len);
    }
  }

  /** The loop of |= over bytes. */
  method OrInto(base: array<bv8>, add: seq<bv8>)
    requires base.Length == |add|
    modifies base
    ensures BitsOf(base[..]) == old(BitsOf(base[..])) + BitsOf(add)
  {
    ghost var was := base[..];
    for i := 0 to base.Length
      invariant base[..i] == Or(was, add)[..i] && base[i..] == was[i..]
    {
      assert base[i] == base[i..][0] && base[i + 1..] == base[i..][1..];
      base[i] := base[i] | add[i];
    }
    assert base[..] == Or(was, add);
    BitsOfOr(was, add);
  }

  /** ghstore_union and g_intbig_union: exactly the bits of all the entries. */
  method UnionKeys(ks: seq<Key>, len: nat) returns (r: Key)
    requires forall i | 0 <= i < |ks| :: OfLen(ks[i], len)
    ensures OfLen(r, len) && KeyBits(r, len) == Union(ks, len)
  {
    var base := new bv8[len](_ => 0);
    BitsOfConstant(base[..], 0);
    for i := 0 to |ks|
      invariant BitsOf(base[..]) == Union(ks[..i], len)
    {
      assert ks[..i + 1][..i] == ks[..i];
      if ks[i].AllTrue? {
        UnionInside(ks, len);
        UnionCovers(ks, len, i);
        return AllTrue;
      }
      OrInto(base, ks[i].sign);
    }
    assert ks[..|ks|] == ks;
    r := Sign(base[..]);
  }

  /** The inner branch of ghstore_compress and g_intbig_compress: a vector of ones becomes the flag, nothing else does. */
  method Collapse(k: Key, len: nat) returns (r: Key)
    requires OfLen(k, len)
    ensures OfLen(r, len) && KeyBits(r, len) == KeyBits(k, len)
    ensures r.AllTrue? <==> KeyBits(k, len) == AllBits(len)
  {
    if k.AllTrue? {
      return k;
    }
    for i := 0 to len
      invariant forall j | 0 <= j < i :: k.sign[j] == 0xff
    {
      if k.sign[i] != 0xff {
        if BitsOf(k.sign) == AllBits(len) {
          AllBitsAreOnes(k.sign, i);
        }
        return k;
      }
    }
    BitsOfConstant(k.sign, 0xff);
    r := AllTrue;
  }

  // ----- Splitting a page

  /** The key of one side of a split while the page is divided: datum_l or datum_r. */
  class Datum {
    const allTrue: bool
    const sign: array<bv8>

    ghost function Bits(len: nat): set<nat>
      reads sign
    {
      if allTrue then AllBits(len) else BitsOf(sign[..])
    }

    ghost predicate Valid(len: nat) {
      !allTrue ==> sign.Length == len
    }

    /** A copy of the seed; a key of ones has no vector. */
    constructor (seed: Key, len: nat)
      requires OfLen(seed, len)
      ensures Valid(len) && Bits(len) == KeyBits(seed, len) && fresh(sign)
    {
      allTrue := seed.AllTrue?;
      var bytes := if seed.AllTrue? then [] else seed.sign;
      sign := new bv8[|bytes|](i requires 0 <= i < |bytes| => bytes[i]);
      new;
      assert seed.Sign? ==> sign[..] == seed.sign;
    }

    /** One more entry on this side. */
    method Add(k: Key, len: nat)
      requires Valid(len) && OfLen(k, len)
      modifies sign
      ensures Bits(len) == old(Bits(len)) + KeyBits(k, len)
    {
      ghost var was := sign[..];
      KeyBitsInside(k, len);
      KeyBitsInside(Sign(was), |was|);
      if allTrue || k.AllTrue? {
        if !allTrue {
          forall i | 0 <= i < sign.Length {
            sign[i] := 0xff;
          }
          BitsOfConstant(sign[..], 0xff);
        }
      } else {
        OrInto(sign, k.sign);
      }
    }

    method Result(len: nat) returns (k: Key)
      requires Valid(len)
      ensures OfLen(k, len) && KeyBits(k, len) == Bits(len)
    {
      k := if allTrue then AllTrue else Sign(sign[..]);
    }
  }

  /** The first pair of entries at the largest distance; the last entry is not looked at unless there are only two. */
  method Seeds(entries: seq<Key>, dist: (Key, Key) -> nat) returns (seed1: nat, seed2: nat)
    requires 3 <= |entries|
    ensures 1 <= seed1 < |entries| && 1 <= seed2 < |entries| && seed1 != seed2
  {
    var maxoff := |entries| - 2;
    var waste: int := -1;
    seed1, seed2 := 0, 0;
    var k := 1;
    while k < maxoff
      invariant (seed1 == 0 && seed2 == 0) || (1 <= seed1 < seed2 <= maxoff)
    {
      for j := k + 1 to maxoff + 1
        invariant (seed1 == 0 && seed2 == 0) || (1 <= seed1 < seed2 <= maxoff)
      {
        if dist(entries[k], entries[j]) > waste {
          waste, seed1, seed2 := dist(entries[k], entries[j]), k, j;
        }
      }
      k := k + 1;
    }
    if seed1 == 0 || seed2 == 0 {
      seed1, seed2 := 1, 2;
    }
  }

  ghost predicate Offsets(entries: seq<Key>, side: seq<nat>) {
    forall i | 0 <= i < |side| :: side[i] < |entries|
  }

  /** The bits of the entries on one side. */
  ghost function SideBits(entries: seq<Key>, side: seq<nat>, len: nat): set<nat>
    requires Offsets(entries, side)
  {
    if side == [] then {} else SideBits(entries, side[..|side| - 1], len) + KeyBits(entries[side[|side| - 1]], len)
  }

  lemma {:induction false} SideBitsSnoc(entries: seq<Key>, side: seq<nat>, j: nat, len: nat)
    requires j < |entries| && Offsets(entries, side)
    ensures Offsets(entries, side + [j])
    ensures SideBits(entries, side + [j], len) == SideBits(entries, side, len) + KeyBits(entries[j], len)
  {
    assert (side + [j])[..|side + [j]| - 1] == side;
  }

  /** The key of a side covers each of its members. */
  lemma {:induction false} SideCovers(entries: seq<Key>, side: seq<nat>, i: nat, len: nat)
    requires i < |side| && Offsets(entries, side)
    ensures KeyBits(entries[side[i]], len) <= SideBits(entries, side, len)
  {
    var n := |side| - 1;
    if i < n {
      SideCovers(entries, side[..n], i, len);
    }
  }

  /** What one side of the split holds after some of the order, and the key it has. */
  ghost predicate Side(entries: seq<Key>, side: seq<nat>, bits: set<nat>, seed: nat, done: seq<nat>, len: nat) {
    && seed < |entries| && Offsets(entries, side)
    && bits == SideBits(entries, side, len) + KeyBits(entries[seed], len)
    && (seed in done ==> seed in side)
  }

  lemma {:induction false} SideGrows(entries: seq<Key>, side: seq<nat>, bits: set<nat>, seed: nat, done: seq<nat>, j: nat, len: nat)
    requires Side(entries, side, bits, seed, done, len) && j < |entries|
    ensures Side(entries, side + [j], bits + KeyBits(entries[j], len), seed, done + [j], len)
    ensures j == seed ==> bits + KeyBits(entries[j], len) == bits
    ensures j != seed ==> Side(entries, side, bits, seed, done + [j], len)
  {
    SideBitsSnoc(entries, side, j, len);
  }

  lemma {:induction false} SideDone(entries: seq<Key>, side: seq<nat>, bits: set<nat>, seed: nat, done: seq<nat>, len: nat)
    requires Side(entries, side, bits, seed, done, len) && seed in done
    ensures side != [] && bits == SideBits(entries, side, len)
  {
    var i :| 0 <= i < |side| && side[i] == seed;
    SideCovers(entries, side, i, len);
  }

  /** All offsets of a page. */
  ghost function AllOffsets(entries: seq<Key>): seq<nat>
    requires entries != []
  {
    seq(|entries| - 1, i => i + 1)
  }

  /** ghstore_picksplit and g_intbig_picksplit, whatever the distances, the order of the costs and the preferences. */
  method PickSplit(entries: seq<Key>, len: nat, dist: (Key, Key) -> nat, prefer: (nat, nat, nat, nat) -> bool, order: seq<nat>)
    returns (left: seq<nat>, right: seq<nat>, keyL: Key, keyR: Key)
    requires 3 <= |entries| && forall i | 0 <= i < |entries| :: OfLen(entries[i], len)
    requires multiset(order) == multiset(AllOffsets(entries))
    ensures multiset(left) + multiset(right) == multiset(AllOffsets(entries)) && left != [] && right != []
    ensures Offsets(entries, left) && Offsets(entries, right) && OfLen(keyL, len) && OfLen(keyR, len)
    ensures KeyBits(keyL, len) == SideBits(entries, left, len) && KeyBits(keyR, len) == SideBits(entries, right, len)
  {
    var seed1, seed2 := Seeds(entries, dist);
    var l := new Datum(entries[seed1], len);
    var r := new Datum(entries[seed2], len);
    OrderIsOfOffsets(order, entries);
    left, right := Divide(entries, len, l, r, seed1, seed2, dist, prefer, order);
    SideDone(entries, left, l.Bits(len), seed1, order, len);
    SideDone(entries, right, r.Bits(len), seed2, order, len);
    keyL := l.Result(len);
    keyR := r.Result(len);
  }

  method Divide(entries: seq<Key>, len: nat, l: Datum, r: Datum, seed1: nat, seed2: nat,
    dist: (Key, Key) -> nat, prefer: (nat, nat, nat, nat) -> bool, order: seq<nat>)
    returns (left: seq<nat>, right: seq<nat>)
    requires (forall i | 0 <= i < |entries| :: OfLen(entries[i], len)) && Offsets(entries, order)
    requires seed1 < |entries| && seed2 < |entries| && seed1 != seed2 && l.Valid(len) && r.Valid(len) && l.sign != r.sign
    requires l.Bits(len) == KeyBits(entries[seed1], len) && r.Bits(len) == KeyBits(entries[seed2], len)
    modifies l.sign, r.sign
    ensures Side(entries, left, l.Bits(len), seed1, order, len) && Side(entries, right, r.Bits(len), seed2, order, len)
    ensures multiset(left) + multiset(right) == multiset(order)
  {
    left, right := [], [];
    for k := 0 to |order|
      invariant Side(entries, left, l.Bits(len), seed1, order[..k], len) && Side(entries, right, r.Bits(len), seed2, order[..k], len)
      invariant multiset(left) + multiset(right) == multiset(order[..k])
    {
      assert order[..k + 1] == order[..k] + [order[k]];
      left, right := Place(entries, len, l, r, seed1, seed2, dist, prefer, left, right, order[k], order[..k]);
    }
    assert order[..|order|] == order;
  }

  /** One entry goes to one side. */
  method Place(entries: seq<Key>, len: nat, l: Datum, r: Datum, seed1: nat, seed2: nat,
    dist: (Key, Key) -> nat, prefer: (nat, nat, nat, nat) -> bool, left: seq<nat>, right: seq<nat>, j: nat, ghost done: seq<nat>)
    returns (left': seq<nat>, right': seq<nat>)
    requires j < |entries| && OfLen(entries[j], len) && seed1 != seed2 && l.Valid(len) && r.Valid(len) && l.sign != r.sign
    requires Side(entries, left, l.Bits(len), seed1, done, len) && Side(entries, right, r.Bits(len), seed2, done, len)
    modifies l.sign, r.sign
    ensures Side(entries, left', l.Bits(len), seed1, done + [j], len) && Side(entries, right', r.Bits(len), seed2, done + [j], len)
    ensures multiset(left') + multiset(right') == multiset(left) + multiset(right) + multiset{j}
  {
    SideGrows(entries, left, l.Bits(len), seed1, done, j, len);
    SideGrows(entries, right, r.Bits(len), seed2, done, j, len);
    left', right' := left, right;
    if j == seed1 {
      left' := left + [j];
    } else if j == seed2 {
      right' := right + [j];
    } else if prefer(dist(DatumKey(l), entries[j]), dist(DatumKey(r), entries[j]), |left|, |right|) {
      l.Add(entries[j], len);
      left' := left + [j];
    } else {
      r.Add(entries[j], len);
      right' := right + [j];
    }
  }

  function DatumKey(d: Datum): Key
    reads d.sign
  {
    if d.allTrue then AllTrue else Sign(d.sign[..])
  }

  lemma {:induction false} OrderIsOfOffsets(order: seq<nat>, entries: seq<Key>)
    requires entries != [] && multiset(order) == multiset(AllOffsets(entries))
    ensures Offsets(entries, order) && forall j | 1 <= j < |entries| :: j in order
  {
    var all := AllOffsets(entries);
    forall i | 0 <= i < |order| ensures order[i] < |entries| {
      assert order[i] in multiset(all);
    }
    forall j | 1 <= j < |entries| ensures j in order {
      assert all[j - 1] in multiset(all);
    }
  }
}
