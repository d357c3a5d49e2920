/**
  Values in the format of the old contrib/hstore, contrib/hstore/hstore_compat.c:
  the two validity tests and the upgrade that rewrites the entries in place.

  An old entry is two 32-bit words, the size of the two new entries of a pair. The
  layout of its fields is the usual one on little-endian machines: key length in
  the low half of the first word and value length in the high half, null flag in
  the lowest bit of the second word and position above it.
 */
module HsCompat {
  import opened Alloc
  import opened HsLayout
  import opened HsBuild
  import opened HsOrder

  type Word32 = w: int | 0 <= w < 0x1_0000_0000

  const FLAG_NEWVERSION: nat := 0x8000_0000
  const COUNT_LIMIT: nat := 0x1000_0000

  /** HS_COUNT of a size field. */
  function CountOf(size: Word32): nat {
    size % COUNT_LIMIT
  }

  // ----- Old entries

  datatype OldEntry = OldEntry(keylen: nat, vallen: nat, isNull: bool, pos: nat)

  function OldAt(w0: Word32, w1: Word32): OldEntry {
    OldEntry(w0 % 0x1_0000, w0 / 0x1_0000, w1 % 2 == 1, w1 / 2)
  }

  function OldEntries(words: seq<Word32>): (es: seq<OldEntry>)
    ensures |es| == |words| / 2 && forall i | 0 <= i < |es| :: es[i] == OldAt(words[2 * i], words[2 * i + 1])
  {
    seq(|words| / 2, i requires 0 <= i < |words| / 2 => OldAt(words[2 * i], words[2 * i + 1]))
  }

  /** The bytes an entry stands for. */
  function OldLen(e: OldEntry): nat {
    e.keylen + if e.isNull then 0 else e.vallen
  }

  function OldEnd(es: seq<OldEntry>): nat {
    if es == [] then 0 else OldEnd(es[..|es| - 1]) + OldLen(es[|es| - 1])
  }

  /** Every entry starts where the one before it ends, and keys do not get shorter. */
  ghost predicate Contiguous(es: seq<OldEntry>) {
    es == [] || (Contiguous(es[..|es| - 1]) && es[|es| - 1].pos == OldEnd(es[..|es| - 1]))
  }

  ghost predicate KeysGrow(es: seq<OldEntry>) {
    forall i | 0 < i < |es| :: es[i - 1].keylen <= es[i].keylen
  }

  ghost predicate ValidOld(size: Word32, varsize: nat, es: seq<OldEntry>) {
    size < FLAG_NEWVERSION && (size != 0 ==> |es| == size && KeysGrow(es) && Contiguous(es) && DataSize(size, OldEnd(es)) <= varsize)
  }

  lemma {:induction false} OldEndStep(es: seq<OldEntry>, i: nat)
    requires i < |es|
    ensures OldEnd(es[..i + 1]) == OldEnd(es[..i]) + OldLen(es[i])
  {
    Snoc(es, i);
  }

  /** The pairs of a valid old value lie in its string area, and positions in it fit. */
  lemma {:induction false} StringFits(count: nat, end: nat, len: nat, varsize: nat)
    requires DataSize(count, end) <= varsize <= MAX_ALLOC
    requires varsize == DataSize(count, len) || varsize < DataSize(count, 0)
    ensures end <= len < POS_LIMIT
  {
  }

  lemma {:induction false} OldEndGrows(es: seq<OldEntry>, i: nat)
    requires i <= |es|
    ensures OldEnd(es[..i]) <= OldEnd(es)
    decreases |es|
  {
    if i < |es| {
      OldEndGrows(es[..|es| - 1], i);
      assert es[..|es| - 1][..i] == es[..i];
    } else {
      assert es[..i] == es;
    }
  }

  // ----- What an old value means

  /** The n bytes at a, if they are there. */
  function Cut(str: Bytes, a: nat, n: nat): Bytes {
    if a + n <= |str| then str[a..a + n] else []
  }

  /** The pair of an entry. */
  function OldPair(e: OldEntry, str: Bytes): Pair {
    Pair(Cut(str, e.pos, e.keylen), if e.isNull then Null else Str(Cut(str, e.pos + e.keylen, e.vallen)))
  }

  function OldPairs(es: seq<OldEntry>, str: Bytes): (ps: seq<Pair>)
    ensures |ps| == |es| && forall i | 0 <= i < |ps| :: ps[i] == OldPair(es[i], str)
  {
    seq(|es|, i requires 0 <= i < |es| => OldPair(es[i], str))
  }

  lemma {:induction false} EntryFits(es: seq<OldEntry>, str: Bytes, i: nat)
    requires Contiguous(es) && OldEnd(es) <= |str| && i < |es|
    ensures es[i].pos + OldLen(es[i]) <= |str|
  {
    FrontContiguous(es, i);
    OldEndStep(es, i);
    OldEndGrows(es, i + 1);
  }

  lemma {:induction false} OldPairBytes(e: OldEntry, str: Bytes)
    requires e.pos + OldLen(e) <= |str|
    ensures var p := OldPair(e, str); PairBytes(p) == str[e.pos..e.pos + OldLen(e)] && |p.key| == e.keylen && p.val.Null? == e.isNull
  {
  }

  /** The bytes of the pairs, one after the other, are the string area. */
  lemma {:induction false} OldBytes(es: seq<OldEntry>, str: Bytes)
    requires Contiguous(es) && OldEnd(es) <= |str|
    ensures StrOf(OldPairs(es, str)) == str[..OldEnd(es)]
  {
    if es != [] {
      var n := |es| - 1;
      var front := es[..n];
      FrontContiguous(es, n);
      OldEndGrows(es, n);
      OldBytes(front, str);
      EntryFits(es, str, n);
      OldPairBytes(es[n], str);
      assert OldPairs(es, str)[..n] == OldPairs(front, str);
      assert es[n].pos == OldEnd(front);
      TwoSlices(str, OldEnd(front), OldEnd(es));
    }
  }

  lemma {:induction false} TwoSlices(str: Bytes, a: nat, b: nat)
    requires a <= b <= |str|
    ensures str[..a] + str[a..b] == str[..b]
  {
  }

  lemma {:induction false} FrontContiguous(es: seq<OldEntry>, i: nat)
    requires Contiguous(es) && i <= |es|
    ensures Contiguous(es[..i]) && (i < |es| ==> es[i].pos == OldEnd(es[..i]))
    decreases |es|
  {
    if i == |es| {
      assert es[..i] == es;
    } else if i < |es| - 1 {
      FrontContiguous(es[..|es| - 1], i);
      assert es[..|es| - 1][..i] == es[..i];
    }
  }

  /** Where the bytes of pair i start. */
  lemma {:induction false} OldStart(es: seq<OldEntry>, str: Bytes, i: nat)
    requires Contiguous(es) && OldEnd(es) <= |str| && i < |es|
    ensures |StrOf(OldPairs(es, str)[..i])| == es[i].pos
  {
    FrontContiguous(es, i);
    OldEndGrows(es, i);
    OldBytes(es[..i], str);
    assert OldPairs(es, str)[..i] == OldPairs(es[..i], str);
  }

  /** The two new entries of pair i, by what its old entry says. */
  lemma {:induction false} NewEntries(es: seq<OldEntry>, str: Bytes, i: nat)
    requires Contiguous(es) && OldEnd(es) <= |str| && i < |es|
    ensures var n, e := Pack(OldPairs(es, str)).entries, es[i];
            && |n| == 2 * |es|
            && n[2 * i] == Entry(i == 0, false, e.pos + e.keylen)
            && n[2 * i + 1] == Entry(false, e.isNull, e.pos + OldLen(e))
  {
    PackedEntries(OldPairs(es, str), i);
    OldStart(es, str, i);
    EntryFits(es, str, i);
    OldPairBytes(es[i], str);
  }

  /** The last entry ends where the bytes do. */
  lemma {:induction false} LastEntry(es: seq<OldEntry>, str: Bytes)
    requires Contiguous(es) && OldEnd(es) <= |str| && es != []
    ensures var hs := Pack(OldPairs(es, str));
            && |hs.entries| == 2 * |es| && Count(hs) == |es|
            && hs.entries[2 * |es| - 1].endPos == OldEnd(es) == |hs.str| && hs.str == Cut(str, 0, OldEnd(es))
  {
    var n := |es| - 1;
    NewEntries(es, str, n);
    assert 2 * |es| - 1 == 2 * n + 1;
    OldBytes(es, str);
  }

  lemma {:induction false} PackedView(es: seq<OldEntry>, str: Bytes, ws: seq<Word32>)
    requires es != [] && Contiguous(es) && OldEnd(es) <= |str| && NewAt(ws) == Pack(OldPairs(es, str)).entries
    ensures |ws| == 2 * |es|
    ensures var hs := Pack(OldPairs(es, str));
            var end := Decode(ws[|ws| - 1]).endPos;
            hs == HStore(NewAt(ws), Cut(str, 0, end)) && VarSize(hs) == DataSize(|es|, end)
  {
    LastEntry(es, str);
    assert Decode(ws[|ws| - 1]) == NewAt(ws)[|ws| - 1];
  }

  /** What the test of the old format makes sure of: entries in order, one behind the other, within the value, keys getting no shorter. */
  lemma {:induction false} ValidOldMeans(size: Word32, varsize: nat, es: seq<OldEntry>, i: nat, j: nat)
    requires ValidOld(size, varsize, es) && size != 0 && i <= j < |es|
    ensures es[i].keylen <= es[j].keylen && (i < j ==> es[i].pos + OldLen(es[i]) <= es[j].pos)
    ensures es[0].pos == 0 && DataSize(size, es[j].pos + OldLen(es[j])) <= varsize
    decreases j - i
  {
    FrontContiguous(es, 0);
    FrontContiguous(es, j);
    OldEndStep(es, j);
    OldEndGrows(es, j + 1);
    if i < j {
      ValidOldMeans(size, varsize, es, i, j - 1);
      FrontContiguous(es, j - 1);
      OldEndStep(es, j - 1);
    }
  }

  // ----- What the old version wrote

  /** The old entry of a pair whose bytes start at a; the length of a null is left open. */
  predicate IsOldEntry(e: OldEntry, p: Pair, a: nat) {
    e.keylen == |p.key| && e.isNull == p.val.Null? && e.pos == a && (p.val.Str? ==> e.vallen == |p.val.s|)
  }

  ghost predicate WritesOld(es: seq<OldEntry>, ps: seq<Pair>) {
    |es| == |ps| && forall i | 0 <= i < |es| :: IsOldEntry(es[i], ps[i], |StrOf(ps[..i])|)
  }

  lemma {:induction false} OldPositions(es: seq<OldEntry>, ps: seq<Pair>, i: nat)
    requires WritesOld(es, ps) && i <= |es|
    ensures OldEnd(es[..i]) == |StrOf(ps[..i])| && Contiguous(es[..i])
  {
    if i > 0 {
      OldPositions(es, ps, i - 1);
      OldEndStep(es, i - 1);
      StrStep(ps, i - 1);
      assert es[..i][..i - 1] == es[..i - 1];
    }
  }

  lemma {:induction false} ReadOldPair(e: OldEntry, p: Pair, str: Bytes)
    requires IsOldEntry(e, p, e.pos) && e.pos + |PairBytes(p)| <= |str| && str[e.pos..e.pos + |PairBytes(p)|] == PairBytes(p)
    ensures OldPair(e, str) == p
  {
    TwoParts(str, e.pos, p.key, ValBytes(p));
  }

  lemma {:induction false} OldKeysGrow(es: seq<OldEntry>, ps: seq<Pair>)
    requires WritesOld(es, ps) && Sorted(ps)
    ensures KeysGrow(es)
  {
    forall i | 0 < i < |es| ensures es[i - 1].keylen <= es[i].keylen {
      LengthsGrow(ps, i);
      assert IsOldEntry(es[i - 1], ps[i - 1], |StrOf(ps[..i - 1])|);
    }
  }

  lemma {:induction false} OldPairAt(e: OldEntry, ps: seq<Pair>, i: nat)
    requires i < |ps| && IsOldEntry(e, ps[i], |StrOf(ps[..i])|)
    ensures OldPair(e, StrOf(ps)) == ps[i]
  {
    PackedBytes(ps, i);
    ReadOldPair(e, ps[i], StrOf(ps));
  }

  lemma {:induction false} OldMeansItself(es: seq<OldEntry>, ps: seq<Pair>)
    requires WritesOld(es, ps)
    ensures OldPairs(es, StrOf(ps)) == ps
  {
    var qs := OldPairs(es, StrOf(ps));
    forall i | 0 <= i < |ps| ensures qs[i] == ps[i] {
      OldPairAt(es[i], ps, i);
    }
  }

  /** Every sorted list of pairs, as the old version wrote it, is valid and means itself. */
  lemma {:induction false} OldWrittenIsValid(es: seq<OldEntry>, ps: seq<Pair>)
    requires WritesOld(es, ps) && Sorted(ps) && |ps| < FLAG_NEWVERSION
    ensures ValidOld(|ps|, DataSize(|ps|, |StrOf(ps)|), es) && OldPairs(es, StrOf(ps)) == ps
  {
    OldKeysGrow(es, ps);
    OldMeansItself(es, ps);
    OldPositions(es, ps, |es|);
    assert es[..|es|] == es && ps[..|ps|] == ps;
  }

  // ----- New entries

  function NewAt(words: seq<Word32>): (es: seq<Entry>)
    ensures |es| == |words| && forall i | 0 <= i < |es| :: es[i] == Decode(words[i])
  {
    seq(|words|, i requires 0 <= i < |words| => Decode(words[i]))
  }

  /** What hstoreValidNewFormat demands of entries; the flags of the first key are not looked at beyond ISFIRST. */
  ghost predicate ValidNew(size: Word32, varsize: nat, es: seq<Entry>) {
    || size >= FLAG_NEWVERSION
    || es == []
    || (&& |es| % 2 == 0 && es[0].isFirst && DataSize(|es| / 2, es[|es| - 1].endPos) <= varsize
        && (forall i | 0 < i < |es| :: Follows(es[i - 1], es[i]))
        && (forall i | 0 < i < |es| / 2 :: KeyFollows(HStore(es, []), i)))
  }

  predicate Follows(before: Entry, e: Entry) {
    !e.isFirst && before.endPos <= e.endPos
  }

  predicate KeyFollows(hs: HStore, i: nat)
    requires 0 < i && 2 * i < |hs.entries|
  {
    KeyLen(hs, i - 1) <= KeyLen(hs, i) && !hs.entries[2 * i].isNull
  }

  /** What the test of the new format makes sure of: positions in order and within the value, one first entry, keys getting no shorter and not null. */
  lemma {:induction false} ValidNewMeans(size: Word32, varsize: nat, es: seq<Entry>, i: nat, j: nat)
    requires ValidNew(size, varsize, es) && size < FLAG_NEWVERSION && i <= j < |es|
    ensures |es| % 2 == 0 && es[i].endPos <= es[j].endPos && DataSize(|es| / 2, es[j].endPos) <= varsize
    ensures (es[j].isFirst <==> j == 0) && (j % 2 == 0 && 0 < j ==> !es[j].isNull)
    decreases j - i
  {
    if i < j {
      ValidNewMeans(size, varsize, es, i, j - 1);
    }
    assert 0 < j ==> Follows(es[j - 1], es[j]);
    LastIsLargest(es, j);
    if j % 2 == 0 && 0 < j {
      assert KeyFollows(HStore(es, []), j / 2) && j == 2 * (j / 2);
    }
  }

  lemma {:induction false} LastIsLargest(es: seq<Entry>, j: nat)
    requires j < |es| && forall i | 0 < i < |es| :: Follows(es[i - 1], es[i])
    ensures es[j].endPos <= es[|es| - 1].endPos
    decreases |es| - j
  {
    if j + 1 < |es| {
      LastIsLargest(es, j + 1);
      assert Follows(es[j + 1 - 1], es[j + 1]);
    }
  }

  lemma {:induction false} ValidNewKeys(size: Word32, varsize: nat, es: seq<Entry>, i: nat, j: nat)
    requires ValidNew(size, varsize, es) && size < FLAG_NEWVERSION && i <= j && 2 * j < |es|
    ensures KeyLen(HStore(es, []), i) <= KeyLen(HStore(es, []), j)
    decreases j - i
  {
    if i < j {
      ValidNewKeys(size, varsize, es, i, j - 1);
      assert KeyFollows(HStore(es, []), j);
    }
  }

  /** Every well-formed value passes the validity test. */
  lemma {:induction false} WellFormedIsValid(hs: HStore, m: map<Bytes, Value>)
    requires Represents(hs, m)
    ensures Count(hs) < COUNT_LIMIT && ValidNew(Count(hs), VarSize(hs), hs.entries)
  {
    var ps :| Sorted(ps) && Fits(ps) && hs == Pack(ps) && ToMap(ps) == m;
    var es := hs.entries;
    if ps != [] {
      PackedEntries(ps, 0);
      LastEnd(ps);
      forall i | 0 < i < |es| ensures Follows(es[i - 1], es[i]) {
        PositionsFollow(ps, i);
      }
      forall i | 0 < i < |es| / 2 ensures KeyFollows(HStore(es, []), i) {
        LengthsGrow(ps, i);
        KeysFollow(ps, i);
      }
    }
  }

  lemma {:induction false} PositionsFollow(ps: seq<Pair>, i: nat)
    requires 0 < i < 2 * |ps|
    ensures var es := Pack(ps).entries; |es| == 2 * |ps| && Follows(es[i - 1], es[i])
  {
    var k := i / 2;
    PackedEntries(ps, k);
    if i == 2 * k {
      PackedEntries(ps, k - 1);
      StrStep(ps, k - 1);
      assert i - 1 == 2 * (k - 1) + 1;
    } else {
      assert i == 2 * k + 1;
    }
  }

  lemma {:induction false} KeysFollow(ps: seq<Pair>, i: nat)
    requires 0 < i < |ps| && |ps[i - 1].key| <= |ps[i].key|
    ensures var es := Pack(ps).entries; |es| == 2 * |ps| && KeyFollows(HStore(es, []), i)
  {
    PackedOffsets(ps, i - 1);
    PackedOffsets(ps, i);
    PackedEntries(ps, i);
  }

  /**
    The whole value in memory: header, words of the entries, string area with
    whatever padding follows it. In a corrupt value the entries that the count asks
    for need not lie inside the value; then the words are what is in memory where
    they would be, and there is no string area.
   */
  class Image {
    var size: Word32
    var varsize: nat
    const words: array<Word32>
    const str: Bytes
    /** The word read in place of a first entry when there are none. */
    const beyond: Word32

    ghost predicate Valid()
      reads this
    {
      && words.Length == 2 * CountOf(size) && varsize <= MAX_ALLOC
      && (varsize == DataSize(CountOf(size), |str|) || varsize < DataSize(CountOf(size), 0))
    }

    constructor (size: Word32, varsize: nat, words: array<Word32>, str: Bytes, beyond: Word32)
      requires words.Length == 2 * CountOf(size) && varsize <= MAX_ALLOC
      requires varsize == DataSize(CountOf(size), |str|) || varsize < DataSize(CountOf(size), 0)
      ensures Valid() && this.size == size && this.varsize == varsize && this.words == words && this.str == str
    {
      this.size, this.varsize, this.words, this.str, this.beyond := size, varsize, words, str, beyond;
    }

    /** hstoreValidOldFormat: 0 for no, 1 for yes with padding, 2 for yes. */
    method ValidOldFormat() returns (res: nat)
      requires Valid()
      ensures res <= 2 && (res != 0 <==> ValidOld(size, varsize, OldEntries(words[..])))
      ensures res == 2 && size != 0 ==> varsize == DataSize(size, OldEnd(OldEntries(words[..])))
    {
      if size >= FLAG_NEWVERSION {
        return 0;
      }
      var count := size;
      if count == 0 {
        return 2;
      }
      ghost var es := OldEntries(words[..]);
      if count >= COUNT_LIMIT {
        return 0;
      }
      if DataSize(count, 0) > varsize {
        return 0;
      }
      if OldAt(words[0], words[1]).pos != 0 {
        FrontContiguousFails(es, 0);
        return 0;
      }
      var ok := CheckKeys(count);
      if !ok {
        return 0;
      }
      var lastpos;
      ok, lastpos := CheckPositions(count);
      if !ok {
        return 0;
      }
      var vsize := DataSize(count, lastpos);
      res := if vsize > varsize then 0 else if vsize != varsize then 1 else 2;
    }

    method CheckKeys(count: nat) returns (ok: bool)
      requires words.Length == 2 * count && 0 < count
      ensures ok <==> KeysGrow(OldEntries(words[..]))
    {
      ghost var es := OldEntries(words[..]);
      for i := 1 to count
        invariant forall j | 0 < j < i :: es[j - 1].keylen <= es[j].keylen
      {
        assert es[i] == OldAt(words[2 * i], words[2 * i + 1]) && es[i - 1] == OldAt(words[2 * (i - 1)], words[2 * (i - 1) + 1]);
        if OldAt(words[2 * i], words[2 * i + 1]).keylen < OldAt(words[2 * (i - 1)], words[2 * (i - 1) + 1]).keylen {
          return false;
        }
      }
      ok := true;
    }

    method CheckPositions(count: nat) returns (ok: bool, lastpos: nat)
      requires words.Length == 2 * count
      ensures ok <==> Contiguous(OldEntries(words[..]))
      ensures ok ==> lastpos == OldEnd(OldEntries(words[..]))
    {
      ghost var es := OldEntries(words[..]);
      lastpos := 0;
      for i := 0 to count
        invariant Contiguous(es[..i]) && lastpos == OldEnd(es[..i])
      {
        Snoc(es, i);
        var e := OldAt(words[2 * i], words[2 * i + 1]);
        assert e == es[i];
        if e.pos != lastpos {
          FrontContiguousFails(es, i);
          return false, lastpos;
        }
        lastpos := lastpos + OldLen(e);
      }
      assert es[..|es|] == es;
      ok := true;
    }

    /** hstoreValidNewFormat: 0 for no, 1 for yes with padding, 2 for yes. */
    method ValidNewFormat() returns (res: nat)
      requires Valid()
      ensures res <= 2 && (res != 0 <==> ValidNew(size, varsize, NewAt(words[..])))
    {
      var count := CountOf(size);
      if size >= FLAG_NEWVERSION || count == 0 {
        return 2;
      }
      ghost var es := NewAt(words[..]);
      assert |es| == 2 * count && |es| / 2 == count && |es| % 2 == 0;
      var vsize := DataSize(count, Decode(words[2 * count - 1]).endPos);
      if !Decode(words[0]).isFirst || vsize > varsize {
        return 0;
      }
      var ok := CheckFollows(count);
      if !ok {
        return 0;
      }
      ok := CheckKeyFollows(count);
      if !ok {
        return 0;
      }
      res := if vsize != varsize then 1 else 2;
    }

    method CheckFollows(count: nat) returns (ok: bool)
      requires words.Length == 2 * count && 0 < count
      ensures ok <==> var es := NewAt(words[..]); forall i | 0 < i < |es| :: Follows(es[i - 1], es[i])
    {
      ghost var es := NewAt(words[..]);
      for i := 1 to 2 * count
        invariant forall j | 0 < j < i :: Follows(es[j - 1], es[j])
      {
        assert es[i] == Decode(words[i]) && es[i - 1] == Decode(words[i - 1]);
        if Decode(words[i]).isFirst || Decode(words[i]).endPos < Decode(words[i - 1]).endPos {
          return false;
        }
      }
      ok := true;
    }

    method CheckKeyFollows(count: nat) returns (ok: bool)
      requires words.Length == 2 * count && 0 < count
      ensures ok <==> var es := NewAt(words[..]); forall i | 0 < i < |es| / 2 :: KeyFollows(HStore(es, []), i)
    {
      var hs := HStore(NewAt(words[..]), []);
      for i := 1 to count
        invariant forall j | 0 < j < i :: KeyFollows(hs, j)
      {
        if !KeyFollows(hs, i) {
          return false;
        }
      }
      ok := true;
    }

    /** The value as the functions for the new format read it. */
    ghost function View(): HStore
      reads this, words
    {
      HStore(NewAt(words[..]), Cut(str, 0, if words.Length == 0 then 0 else Decode(words[words.Length - 1]).endPos))
    }

    /** HS_SETCOUNT and HS_FIXSIZE. */
    method Settle(count: nat)
      requires words.Length == 2 * count && count < COUNT_LIMIT
      modifies this
      ensures size == count + FLAG_NEWVERSION
      ensures varsize == DataSize(count, if count == 0 then 0 else Decode(words[2 * count - 1]).endPos)
    {
      size := count + FLAG_NEWVERSION;
      varsize := DataSize(count, if count == 0 then 0 else Decode(words[2 * count - 1]).endPos);
    }

    /** The loop that overwrites each old entry with the two new ones. */
    method Rewrite(count: nat)
      requires words.Length == 2 * count && 0 < count
      requires var es := OldEntries(words[..]); Contiguous(es) && OldEnd(es) <= |str| && |str| < POS_LIMIT
      modifies words
      ensures var es := OldEntries(old(words[..]));
              NewAt(words[..]) == Pack(OldPairs(es, str)).entries
    {
      ghost var es := OldEntries(words[..]);
      ghost var was := words[..];
      for i := 0 to count
        invariant AllRewritten(words[..], es, 0, i)
        invariant words[2 * i..] == was[2 * i..]
      {
        assert words[2 * i] == words[2 * i..][0] == was[2 * i] && words[2 * i + 1] == words[2 * i..][1] == was[2 * i + 1];
        assert words[2 * i + 2..] == words[2 * i..][2..] == was[2 * i + 2..];
        EntryFits(es, str, i);
        ghost var before := words[..];
        RewriteOne(i, es[i]);
        RewrittenStep(before, words[..], es, i);
      }
      MarkFirstWord(es);
      RewrittenIsPacked(es, str, words[..]);
    }

    method RewriteOne(i: nat, ghost e: OldEntry)
      requires 2 * i + 1 < words.Length && e == OldAt(words[2 * i], words[2 * i + 1]) && e.pos + OldLen(e) < POS_LIMIT
      modifies words
      ensures Rewritten(words[2 * i], words[2 * i + 1], e)
      ensures words[..2 * i] == old(words[..2 * i]) && words[2 * i + 2..] == old(words[2 * i + 2..])
    {
      var o := OldAt(words[2 * i], words[2 * i + 1]);
      var vallen := if o.isNull then 0 else o.vallen;
      var k, v := Entry(false, false, Mask(o.pos + o.keylen)), Entry(false, o.isNull, Mask(o.pos + o.keylen + vallen));
      MaskKeeps(o.pos + o.keylen, o.pos + o.keylen + vallen);
      WordsKeepEntries(k);
      WordsKeepEntries(v);
      words[2 * i], words[2 * i + 1] := Encode(k), Encode(v);
    }

    method MarkFirstWord(ghost es: seq<OldEntry>)
      requires es != [] && words.Length == 2 * |es| && AllRewritten(words[..], es, 0, |es|)
      modifies words
      ensures FirstRewritten(words[0], words[1], es[0]) && AllRewritten(words[..], es, 1, |es|)
    {
      ghost var before := words[..];
      assert Rewritten(before[2 * 0], before[2 * 0 + 1], es[0]);
      FirstFlag(words[0]);
      words[0] := SetFirst(words[0]);
      forall j | 1 <= j < |es| ensures Rewritten(words[2 * j], words[2 * j + 1], es[j]) {
        assert Rewritten(before[2 * j], before[2 * j + 1], es[j]);
      }
    }

    /** hstoreUpgrade, once there is a copy that can be written to. */
    method Upgrade() returns (ok: bool)
      requires Valid()
      modifies this, words
      ensures old(size) >= FLAG_NEWVERSION ==> ok && unchanged(this) && unchanged(words)
      ensures old(size) < FLAG_NEWVERSION && ok ==> size == CountOf(old(size)) + FLAG_NEWVERSION
      // a valid old value keeps its pairs, unless the shortcut mistakes it, and its size becomes exact
      ensures old(size != 0 && ValidOld(size, varsize, OldEntries(words[..]))) ==>
                var es := old(OldEntries(words[..]));
                && ok && (View() == Pack(OldPairs(es, str)) <==> !old(Mistakable(varsize, OldEntries(words[..]))))
                && (View() == Pack(OldPairs(es, str)) ==> varsize == VarSize(View()))
      // any other value is taken as it is or refused
      ensures old(size < FLAG_NEWVERSION && (size == 0 || !ValidOld(size, varsize, OldEntries(words[..])))) ==>
                && unchanged(words)
                && (ok <==> old(size == 0 || Short() || ValidNew(size, varsize, NewAt(words[..]))))
    {
      if size >= FLAG_NEWVERSION {
        return true;
      }
      ghost var size0, varsize0, ws := size, varsize, words[..];
      ghost var es := OldEntries(ws);
      var count := CountOf(size);
      var first := if words.Length == 0 then beyond else words[0];
      if size == 0 || (varsize < 32768 && Decode(first).isFirst) {
        if size0 != 0 && ValidOld(size0, varsize0, es) {
          ShortcutChanges(size0, varsize0, ws, str);
        }
        Settle(count);
        return true;
      }
      if ValidOld(size0, varsize0, es) {
        ShortcutExactly(size0, varsize0, ws);
      }
      ok := UpgradeTested(count);
    }

    /** What the two tests decide, where the shortcut does not. */
    method UpgradeTested(count: nat) returns (ok: bool)
      requires Valid() && 0 < size < FLAG_NEWVERSION && count == CountOf(size)
      modifies this, words
      ensures ok ==> size == count + FLAG_NEWVERSION
      ensures old(ValidOld(size, varsize, OldEntries(words[..]))) ==>
                ok && View() == Pack(OldPairs(old(OldEntries(words[..])), str)) && varsize == VarSize(View())
      ensures old(!ValidOld(size, varsize, OldEntries(words[..]))) ==>
                unchanged(words) && (ok <==> old(ValidNew(size, varsize, NewAt(words[..]))))
    {
      var validNew := ValidNewFormat();
      var validOld := ValidOldFormat();
      if validOld == 0 {
        if validNew != 0 {
          Settle(count);
        }
        return validNew != 0;
      }
      Convert(count);
      ok := true;
    }

    /** The test of the shortcut. */
    ghost predicate Short()
      reads this, words
    {
      varsize < 32768 && Decode(if words.Length == 0 then beyond else words[0]).isFirst
    }

    method Convert(count: nat)
      requires Valid() && size == count && 0 < count < COUNT_LIMIT && ValidOld(size, varsize, OldEntries(words[..]))
      modifies this, words
      ensures size == count + FLAG_NEWVERSION
      ensures View() == Pack(OldPairs(old(OldEntries(words[..])), str)) && varsize == VarSize(View())
    {
      assert CountOf(size) == count;
      ghost var end := OldEnd(OldEntries(words[..]));
      assert end <= |str| < POS_LIMIT by {
        StringFits(count, end, |str|, varsize);
      }
      ConvertEntries(count);
    }

    /** The entries are rewritten, and the count and the size are set. */
    method ConvertEntries(count: nat)
      requires words.Length == 2 * count && 0 < count < COUNT_LIMIT
      requires var es := OldEntries(words[..]); Contiguous(es) && OldEnd(es) <= |str| && |str| < POS_LIMIT
      modifies this, words
      ensures size == count + FLAG_NEWVERSION
      ensures View() == Pack(OldPairs(old(OldEntries(words[..])), str)) && varsize == VarSize(View())
    {
      ghost var es := OldEntries(words[..]);
      Rewrite(count);
      PackedView(es, str, words[..]);
      Settle(count);
    }
  }

  // ----- Which values the shortcut takes

  /** A short value whose first pair is null and has a large number where the length of a value would be. */
  ghost predicate Mistakable(varsize: nat, es: seq<OldEntry>) {
    es != [] && varsize < 32768 && es[0].isNull && es[0].vallen >= 32768
  }

  /** The shortcut for short values takes a valid old one for new exactly then. */
  lemma {:induction false} ShortcutExactly(size: Word32, varsize: nat, ws: seq<Word32>)
    requires ValidOld(size, varsize, OldEntries(ws)) && size != 0
    ensures varsize < 32768 && Decode(ws[0]).isFirst <==> Mistakable(varsize, OldEntries(ws))
  {
    var es := OldEntries(ws);
    OldEndStep(es, 0);
    OldEndGrows(es, 1);
    TopBit(ws[0]);
  }

  lemma {:induction false} TopBit(w: Word32)
    ensures Decode(w).isFirst <==> w / 0x1_0000 >= 32768
  {
  }

  /** A value the shortcut takes by mistake means something else afterwards: its first null is gone. */
  lemma {:induction false} MistakeChanges(ws: seq<Word32>, str: Bytes)
    requires var es := OldEntries(ws); Contiguous(es) && OldEnd(es) <= |str| && es != [] && es[0].isNull
    ensures NewAt(ws) != Pack(OldPairs(OldEntries(ws), str)).entries
  {
    PackedNull(OldEntries(ws), str);
    ReadNull(ws);
  }

  lemma {:induction false} PackedNull(es: seq<OldEntry>, str: Bytes)
    requires Contiguous(es) && OldEnd(es) <= |str| && es != [] && es[0].isNull
    ensures var packed := Pack(OldPairs(es, str)).entries; |packed| > 1 && packed[1].isNull
    ensures es[0].pos == 0
  {
    FrontContiguous(es, 0);
    NewEntries(es, str, 0);
  }

  lemma {:induction false} ReadNull(ws: seq<Word32>)
    requires var es := OldEntries(ws); es != [] && es[0].isNull && es[0].pos == 0
    ensures |NewAt(ws)| > 1 && !NewAt(ws)[1].isNull
  {
    FirstNullWord(ws[0], ws[1]);
  }

  lemma {:induction false} FirstNullWord(w: Word32, w': Word32)
    requires OldAt(w, w').isNull && OldAt(w, w').pos == 0
    ensures !Decode(w').isNull
  {
    assert w' == 1;
  }

  lemma {:induction false} ShortcutChanges(size: Word32, varsize: nat, ws: seq<Word32>, str: Bytes)
    requires ValidOld(size, varsize, OldEntries(ws)) && size != 0 && varsize < 32768 && Decode(ws[0]).isFirst
    requires varsize == DataSize(size, |str|)
    ensures Mistakable(varsize, OldEntries(ws)) && NewAt(ws) != Pack(OldPairs(OldEntries(ws), str)).entries
  {
    ShortcutExactly(size, varsize, ws);
    MistakeChanges(ws, str);
  }

  /** There is such a value: one pair, an empty key with a null. */
  lemma {:induction false} ShortcutMisreads()
    ensures var ws: seq<Word32> := [0x8000_0000, 1];
            ValidOld(1, 16, OldEntries(ws)) && Mistakable(16, OldEntries(ws)) && OldPairs(OldEntries(ws), []) == [Pair([], Null)]
  {
    var ws: seq<Word32> := [0x8000_0000, 1];
    var es := OldEntries(ws);
    assert es == [OldEntry(0, 32768, true, 0)];
    assert es[..0] == [];
    assert OldPairs(es, []) == [OldPair(es[0], [])];
  }

  /** The bit of HENTRY_ISFIRST set. */
  function SetFirst(w: Word32): Word32 {
    if w < HENTRY_ISFIRST then w + HENTRY_ISFIRST else w
  }

  lemma {:induction false} FirstFlag(w: Word32)
    ensures Decode(SetFirst(w)) == Decode(w).(isFirst := true)
  {
  }

  ghost predicate Rewritten(w0: Word32, w1: Word32, e: OldEntry) {
    Decode(w0) == Entry(false, false, e.pos + e.keylen) && Decode(w1) == Entry(false, e.isNull, e.pos + OldLen(e))
  }

  ghost predicate FirstRewritten(w0: Word32, w1: Word32, e: OldEntry) {
    Decode(w0) == Entry(true, false, e.pos + e.keylen) && Decode(w1) == Entry(false, e.isNull, e.pos + OldLen(e))
  }

  ghost predicate AllRewritten(ws: seq<Word32>, es: seq<OldEntry>, a: nat, b: nat) {
    b <= |es| && 2 * |es| <= |ws| && forall j | a <= j < b :: Rewritten(ws[2 * j], ws[2 * j + 1], es[j])
  }

  lemma {:induction false} RewrittenStep(before: seq<Word32>, ws: seq<Word32>, es: seq<OldEntry>, i: nat)
    requires AllRewritten(before, es, 0, i) && i < |es| && |ws| == |before| && ws[..2 * i] == before[..2 * i]
    requires Rewritten(ws[2 * i], ws[2 * i + 1], es[i])
    ensures AllRewritten(ws, es, 0, i + 1)
  {
    forall j | 0 <= j < i ensures Rewritten(ws[2 * j], ws[2 * j + 1], es[j]) {
      assert ws[2 * j] == ws[..2 * i][2 * j] == before[2 * j] && ws[2 * j + 1] == ws[..2 * i][2 * j + 1] == before[2 * j + 1];
      assert Rewritten(before[2 * j], before[2 * j + 1], es[j]);
    }
  }

  lemma {:induction false} RewrittenIsPacked(es: seq<OldEntry>, str: Bytes, ws: seq<Word32>)
    requires Contiguous(es) && OldEnd(es) <= |str| && |ws| == 2 * |es| && es != []
    requires FirstRewritten(ws[0], ws[1], es[0]) && AllRewritten(ws, es, 1, |es|)
    ensures NewAt(ws) == Pack(OldPairs(es, str)).entries
  {
    var n, m := NewAt(ws), Pack(OldPairs(es, str)).entries;
    NewEntries(es, str, 0);
    assert |m| == 2 * |es|;
    forall j | 0 <= j < |es| ensures SamePair(n, m, j) {
      RewrittenPair(es, str, ws, j);
    }
    ByPairs(n, m, |es|);
  }

  lemma {:induction false} RewrittenPair(es: seq<OldEntry>, str: Bytes, ws: seq<Word32>, j: nat)
    requires Contiguous(es) && OldEnd(es) <= |str| && |ws| == 2 * |es| && j < |es|
    requires FirstRewritten(ws[0], ws[1], es[0]) && AllRewritten(ws, es, 1, |es|)
    ensures SamePair(NewAt(ws), Pack(OldPairs(es, str)).entries, j)
  {
    NewEntries(es, str, j);
    if j > 0 {
      assert Rewritten(ws[2 * j], ws[2 * j + 1], es[j]);
    }
  }

  ghost predicate SamePair<T>(a: seq<T>, b: seq<T>, j: nat) {
    2 * j + 1 < |a| && 2 * j + 1 < |b| && a[2 * j] == b[2 * j] && a[2 * j + 1] == b[2 * j + 1]
  }

  lemma {:induction false} ByPairs<T>(a: seq<T>, b: seq<T>, n: nat)
    requires |a| == |b| == 2 * n && forall j | 0 <= j < n :: SamePair(a, b, j)
    ensures a == b
  {
    forall p | 0 <= p < |a| ensures a[p] == b[p] {
      assert SamePair(a, b, p / 2);
    }
  }

  lemma {:induction false} FrontContiguousFails(es: seq<OldEntry>, i: nat)
    requires i < |es| && es[i].pos != OldEnd(es[..i])
    ensures !Contiguous(es)
  {
    if Contiguous(es) {
      FrontContiguous(es, i);
    }
  }
}
