/**
  The packed form of an hstore value, contrib/hstore/hstore.h: one entry per key
  and per value holding the end of its bytes and two flags, then all the bytes.
 */
module HsLayout {
  import opened Alloc

  type Byte = b: int | 0 <= b < 256

  type Bytes = seq<Byte>

  /** A key and its value, or null. */
  datatype Pair = Pair(key: Bytes, val: Value)

  datatype Value = Null | Str(s: Bytes)

  // ----- HEntry

  /** An HEntry with its fields apart. */
  datatype Entry = Entry(isFirst: bool, isNull: bool, endPos: nat)

  const HENTRY_ISFIRST: nat := 0x8000_0000
  const HENTRY_ISNULL: nat := 0x4000_0000
  const POS_LIMIT: nat := 0x4000_0000

  /** The 32-bit word that stands for an entry. */
  function Encode(e: Entry): nat {
    (if e.isFirst then HENTRY_ISFIRST else 0) + (if e.isNull then HENTRY_ISNULL else 0) + e.endPos
  }

  function Decode(w: nat): Entry {
    Entry(w / HENTRY_ISFIRST % 2 == 1, w / HENTRY_ISNULL % 2 == 1, w % POS_LIMIT)
  }

  /** The fields do not get in each other's way as long as the position fits its mask. */
  lemma {:induction false} WordsKeepEntries(e: Entry)
    ensures Decode(Encode(e)) == e <==> e.endPos < POS_LIMIT
    ensures e.endPos < POS_LIMIT ==>
              var w := Encode(e);
              w < 0x1_0000_0000 && (w >= 0x8000_0000 <==> e.isFirst) && (w % 0x8000_0000 >= 0x4000_0000 <==> e.isNull) && w % 0x4000_0000 == e.endPos
  {
  }

  // ----- Values

  /** An hstore value: its entries, two to a pair, and its bytes. */
  datatype HStore = HStore(entries: seq<Entry>, str: Bytes)

  function Count(hs: HStore): nat {
    |hs.entries| / 2
  }

  /** VARSIZE of a value with count pairs and len bytes: CALCDATASIZE. */
  function DataSize(count: nat, len: nat): nat {
    count * 8 + 8 + len
  }

  function VarSize(hs: HStore): nat {
    DataSize(Count(hs), |hs.str|)
  }

  function ValBytes(p: Pair): Bytes {
    if p.val.Null? then [] else p.val.s
  }

  function PairBytes(p: Pair): Bytes {
    p.key + ValBytes(p)
  }

  function StrOf(ps: seq<Pair>): Bytes {
    if ps == [] then [] else StrOf(ps[..|ps| - 1]) + PairBytes(ps[|ps| - 1])
  }

  /** The two entries of a pair whose bytes start at a. */
  function EntriesAt(p: Pair, a: nat): (e: seq<Entry>)
    ensures |e| == 2
  {
    [Entry(false, false, a + |p.key|), Entry(false, p.val.Null?, a + |PairBytes(p)|)]
  }

  /** The entries of the pairs, the flag of the first one not set. */
  function EntriesOf(ps: seq<Pair>): (w: seq<Entry>)
    ensures |w| == 2 * |ps|
  {
    if ps == [] then [] else EntriesOf(ps[..|ps| - 1]) + EntriesAt(ps[|ps| - 1], |StrOf(ps[..|ps| - 1])|)
  }

  function MarkFirst(w: seq<Entry>): seq<Entry> {
    if w == [] then [] else w[0 := w[0].(isFirst := true)]
  }

  function Pack(ps: seq<Pair>): HStore {
    HStore(MarkFirst(EntriesOf(ps)), StrOf(ps))
  }

  /** The value fits an allocation, and so every position fits its mask. */
  ghost predicate Fits(ps: seq<Pair>) {
    DataSize(|ps|, |StrOf(ps)|) <= MAX_ALLOC
  }

  // ----- Reading

  /** HSE_OFF. */
  function Off(hs: HStore, i: nat): nat
    requires i < |hs.entries|
  {
    if hs.entries[i].isFirst || i == 0 then 0 else hs.entries[i - 1].endPos
  }

  /** HSE_LEN. */
  function Len(hs: HStore, i: nat): int
    requires i < |hs.entries|
  {
    hs.entries[i].endPos - Off(hs, i)
  }

  function KeyLen(hs: HStore, i: nat): int
    requires 2 * i < |hs.entries|
  {
    Len(hs, 2 * i)
  }

  function ValLen(hs: HStore, i: nat): int
    requires 2 * i + 1 < |hs.entries|
  {
    Len(hs, 2 * i + 1)
  }

  predicate ValIsNull(hs: HStore, i: nat)
    requires 2 * i + 1 < |hs.entries|
  {
    hs.entries[2 * i + 1].isNull
  }

  // ----- What reading a packed value gives

  lemma {:induction false} EntryAt(ps: seq<Pair>, i: nat)
    requires i < |ps|
    ensures EntriesOf(ps)[2 * i..2 * i + 2] == EntriesAt(ps[i], |StrOf(ps[..i])|)
  {
    var front := ps[..|ps| - 1];
    var w := EntriesOf(front);
    if i < |ps| - 1 {
      EntryAt(front, i);
      assert front[..i] == ps[..i];
      assert EntriesOf(ps)[2 * i..2 * i + 2] == w[2 * i..2 * i + 2];
    }
  }

  lemma {:induction false} StrPrefix(ps: seq<Pair>, i: nat)
    requires i <= |ps|
    ensures StrOf(ps[..i]) <= StrOf(ps)
    decreases |ps|
  {
    if i < |ps| {
      StrPrefix(ps[..|ps| - 1], i);
      assert ps[..|ps| - 1][..i] == ps[..i];
    } else {
      assert ps[..i] == ps;
    }
  }

  lemma {:induction false} StrStep(ps: seq<Pair>, i: nat)
    requires i < |ps|
    ensures StrOf(ps[..i + 1]) == StrOf(ps[..i]) + PairBytes(ps[i])
    ensures StrOf(ps[..i + 1]) <= StrOf(ps)
  {
    assert ps[..i + 1][..i] == ps[..i];
    StrPrefix(ps, i + 1);
  }

  /** The two entries of pair i. */
  lemma {:induction false} PackedEntries(ps: seq<Pair>, i: nat)
    requires i < |ps|
    ensures var e, a := Pack(ps).entries, |StrOf(ps[..i])|;
            && |e| == 2 * |ps|
            && e[2 * i] == Entry(i == 0, false, a + |ps[i].key|)
            && e[2 * i + 1] == Entry(false, ps[i].val.Null?, a + |PairBytes(ps[i])|)
  {
    EntryAt(ps, i);
    var w := EntriesOf(ps);
    assert w[2 * i] == w[2 * i..2 * i + 2][0] && w[2 * i + 1] == w[2 * i..2 * i + 2][1];
  }

  /** The last position is the number of bytes. */
  lemma {:induction false} LastEnd(ps: seq<Pair>)
    requires ps != []
    ensures |Pack(ps).entries| == 2 * |ps| && Pack(ps).entries[2 * |ps| - 1].endPos == |Pack(ps).str|
  {
    var n := |ps| - 1;
    PackedEntries(ps, n);
    assert 2 * |ps| - 1 == 2 * n + 1;
  }

  /** Where pair i of a packed value is, and its flags. */
  lemma {:induction false} PackedOffsets(ps: seq<Pair>, i: nat)
    requires i < |ps|
    ensures var hs := Pack(ps); var a := |StrOf(ps[..i])|;
            && |hs.entries| == 2 * |ps|
            && Off(hs, 2 * i) == a && Off(hs, 2 * i + 1) == a + |ps[i].key|
            && KeyLen(hs, i) == |ps[i].key| && ValLen(hs, i) == |ValBytes(ps[i])| && ValIsNull(hs, i) == ps[i].val.Null?
  {
    PackedEntries(ps, i);
    if 0 < i {
      PackedEntries(ps, i - 1);
      assert 2 * i - 1 == 2 * (i - 1) + 1;
      StrStep(ps, i - 1);
    }
  }

  lemma {:induction false} PackedBytes(ps: seq<Pair>, i: nat)
    requires i < |ps|
    ensures var s, a := StrOf(ps), |StrOf(ps[..i])|;
            a + |PairBytes(ps[i])| <= |s| && s[a..a + |PairBytes(ps[i])|] == PairBytes(ps[i])
  {
    StrStep(ps, i);
    var s, t := StrOf(ps), StrOf(ps[..i + 1]);
    assert s[..|t|] == t;
  }

  // ----- Whole keys and values

  /** The bytes of pair i, key and value together, lie inside the string area. */
  predicate Readable(hs: HStore, i: nat)
    requires 2 * i + 1 < |hs.entries|
  {
    0 <= KeyLen(hs, i) && 0 <= ValLen(hs, i) && Off(hs, 2 * i + 1) == Off(hs, 2 * i) + KeyLen(hs, i)
    && Off(hs, 2 * i) + KeyLen(hs, i) + ValLen(hs, i) <= |hs.str|
  }

  /** HS_KEY and HS_KEYLEN. */
  function KeyAt(hs: HStore, i: nat): Bytes
    requires 2 * i + 1 < |hs.entries| && Readable(hs, i)
  {
    hs.str[Off(hs, 2 * i)..Off(hs, 2 * i) + KeyLen(hs, i)]
  }

  /** HS_VAL, HS_VALLEN and HS_VALISNULL. */
  function ValAt(hs: HStore, i: nat): Value
    requires 2 * i + 1 < |hs.entries| && Readable(hs, i)
  {
    if ValIsNull(hs, i) then Null else Str(hs.str[Off(hs, 2 * i + 1)..Off(hs, 2 * i + 1) + ValLen(hs, i)])
  }

  /** Reading a packed value gives back what was packed. */
  lemma {:induction false} PackedPair(ps: seq<Pair>, i: nat)
    requires i < |ps|
    ensures var hs := Pack(ps);
            && |hs.entries| == 2 * |ps| && Readable(hs, i)
            && KeyAt(hs, i) == ps[i].key && ValAt(hs, i) == ps[i].val
  {
    PackedOffsets(ps, i);
    PackedBytes(ps, i);
    ReadPair(Pack(ps), i, |StrOf(ps[..i])|, ps[i]);
  }

  lemma {:induction false} ReadPair(hs: HStore, i: nat, a: nat, p: Pair)
    requires 2 * i + 1 < |hs.entries| && Off(hs, 2 * i) == a && Off(hs, 2 * i + 1) == a + |p.key|
    requires KeyLen(hs, i) == |p.key| && ValLen(hs, i) == |ValBytes(p)| && ValIsNull(hs, i) == p.val.Null?
    requires a + |PairBytes(p)| <= |hs.str| && hs.str[a..a + |PairBytes(p)|] == PairBytes(p)
    ensures Readable(hs, i) && KeyAt(hs, i) == p.key && ValAt(hs, i) == p.val
  {
    TwoParts(hs.str, a, p.key, ValBytes(p));
  }

  /** A prefix one longer. */
  lemma {:induction false} Snoc<T>(s: seq<T>, i: nat)
    requires i < |s|
    ensures s[..i + 1] == s[..i] + [s[i]] && s[..i + 1][..i] == s[..i] && s[..|s|] == s
  {
  }

  lemma {:induction false} TwoParts(s: Bytes, a: nat, x: Bytes, y: Bytes)
    requires a + |x + y| <= |s| && s[a..a + |x + y|] == x + y
    ensures s[a..a + |x|] == x && s[a + |x|..a + |x| + |y|] == y
  {
    var b := s[a..a + |x + y|];
    assert s[a..a + |x|] == b[..|x|];
    assert s[a + |x|..a + |x| + |y|] == b[|x|..];
  }
}
