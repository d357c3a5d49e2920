/**
  hstore_in and hstore_out, contrib/hstore/hstore_io.c, and the round trip between them.
 */
module HsIo {
  import opened Alloc
  import opened HsLayout
  import opened HsOrder
  import opened HsPairs
  import opened HsText
  import opened HsParse

  // ----- Output

  /** The length hstore_out allocates. */
  function OutLen(ps: seq<Pair>): nat {
    if ps == [] then 0 else OutLen(ps[..|ps| - 1]) + PairOutLen(ps[|ps| - 1])
  }

  function PairOutLen(p: Pair): nat {
    6 + 2 * |p.key| + 2 + if p.val.Null? then 2 else 2 * |ValBytes(p)|
  }

  lemma {:induction false} EscapedLen(w: Bytes)
    ensures |Escaped(w)| <= 2 * |w|
  {
    if w != [] {
      EscapedLen(w[..|w| - 1]);
    }
  }

  lemma {:induction false} PairTextLen(p: Pair)
    ensures |PairText(p)| + 2 <= PairOutLen(p)
  {
    EscapedLen(p.key);
    EscapedLen(ValBytes(p));
  }

  /** The allocation holds every byte printed and a terminator. */
  lemma {:induction false} OutLenSuffices(ps: seq<Pair>)
    ensures ps != [] ==> |Print(ps)| + 2 <= OutLen(ps)
  {
    if ps != [] {
      OutLenSuffices(ps[..|ps| - 1]);
      PairTextLen(ps[|ps| - 1]);
    }
  }

  lemma {:induction false} EscapedAll(w: Bytes)
    requires forall i | 0 <= i < |w| :: w[i] in {34, 92}
    ensures |Escaped(w)| == 2 * |w|
  {
    if w != [] {
      EscapedAll(w[..|w| - 1]);
    }
  }

  /** It is no larger than that takes: where every byte needs a backslash all but one byte of it is used. */
  lemma {:induction false} OutLenIsTight(ps: seq<Pair>)
    requires ps != [] && forall i | 0 <= i < |ps| :: forall j | 0 <= j < |PairBytes(ps[i])| :: PairBytes(ps[i])[j] in {34, 92}
    ensures |Print(ps)| + 2 == OutLen(ps)
  {
    var n := |ps| - 1;
    var p := ps[n];
    assert forall j | 0 <= j < |p.key| :: PairBytes(p)[j] == p.key[j];
    assert forall j | 0 <= j < |ValBytes(p)| :: PairBytes(p)[|p.key| + j] == ValBytes(p)[j];
    EscapedAll(p.key);
    EscapedAll(ValBytes(p));
    if n > 0 {
      OutLenIsTight(ps[..n]);
    }
  }

  /** Bytes written one after the other. */
  method Write(out: array<Byte>, at: nat, bs: Bytes) returns (end: nat)
    requires at + |bs| <= out.Length
    modifies out
    ensures end == at + |bs| && out[..end] == old(out[..at]) + bs
  {
    for i := 0 to |bs|
      invariant out[..at] == old(out[..at]) && out[at..at + i] == bs[..i]
    {
      out[at + i] := bs[i];
    }
    end := at + |bs|;
    assert out[..end] == out[..at] + out[at..end];
  }

  /** cpw. */
  method Cpw(out: array<Byte>, at: nat, src: Bytes) returns (end: nat)
    requires at + |Escaped(src)| <= out.Length
    modifies out
    ensures end == at + |Escaped(src)| && out[..end] == old(out[..at]) + Escaped(src)
  {
    end := at;
    for i := 0 to |src|
      invariant end == at + |Escaped(src[..i])| && end <= out.Length
      invariant out[..end] == old(out[..at]) + Escaped(src[..i])
    {
      EscapedPrefix(src, i + 1);
      Snoc(src, i);
      ghost var o, e := old(out[..at]), Escaped(src[..i]);
      assert o + (e + EscapedByte(src[i])) == o + e + EscapedByte(src[i]);
      end := WriteEscaped(out, end, src[i]);
    }
    assert src[..|src|] == src;
  }

  method WriteEscaped(out: array<Byte>, at: nat, c: Byte) returns (end: nat)
    requires at + |EscapedByte(c)| <= out.Length
    modifies out
    ensures end == at + |EscapedByte(c)| && out[..end] == old(out[..at]) + EscapedByte(c)
  {
    end := at;
    if c == QUOTE || c == BACKSLASH {
      end := Write(out, end, [BACKSLASH]);
    }
    end := Write(out, end, [c]);
  }

  lemma {:induction false} EscapedPrefix(w: Bytes, i: nat)
    requires i <= |w|
    ensures |Escaped(w[..i])| <= |Escaped(w)|
    decreases |w|
  {
    if i < |w| {
      EscapedPrefix(w[..|w| - 1], i);
      assert w[..|w| - 1][..i] == w[..i];
    } else {
      assert w[..i] == w;
    }
  }

  method WriteQuoted(out: array<Byte>, at: nat, w: Bytes) returns (end: nat)
    requires at + |QuotedText(w)| <= out.Length
    modifies out
    ensures end == at + |QuotedText(w)| && out[..end] == old(out[..at]) + QuotedText(w)
  {
    end := Write(out, at, [QUOTE]);
    end := Cpw(out, end, w);
    end := Write(out, end, [QUOTE]);
  }

  /** HS_KEY and HS_VAL of pair i. */
  method PairAt(hs: HStore, i: nat, ghost ps: seq<Pair>) returns (p: Pair)
    requires hs == Pack(ps) && i < |ps|
    ensures p == ps[i]
  {
    PackedPair(ps, i);
    p := Pair(KeyAt(hs, i), ValAt(hs, i));
  }

  method WritePair(out: array<Byte>, at: nat, p: Pair) returns (end: nat)
    requires at + |PairText(p)| <= out.Length
    modifies out
    ensures end == at + |PairText(p)| && out[..end] == old(out[..at]) + PairText(p)
  {
    ghost var o, k, v := out[..at], QuotedText(p.key), ValueText(p.val);
    end := WriteQuoted(out, at, p.key);
    end := Write(out, end, [EQUALS, GREATER]);
    end := WriteValue(out, end, p.val);
    Joined(o, k, [EQUALS, GREATER], v);
  }

  lemma {:induction false} Joined(o: Bytes, k: Bytes, arrow: Bytes, v: Bytes)
    ensures o + k + arrow + v == o + (k + arrow + v) && |k + arrow + v| == |k| + |arrow| + |v|
  {
  }

  method WriteValue(out: array<Byte>, at: nat, v: Value) returns (end: nat)
    requires at + |ValueText(v)| <= out.Length
    modifies out
    ensures end == at + |ValueText(v)| && out[..end] == old(out[..at]) + ValueText(v)
  {
    if v.Null? {
      end := Write(out, at, NULL_TEXT);
    } else {
      end := WriteQuoted(out, at, v.s);
    }
  }

  /** hstore_out: the printed pairs and a terminator, or an error if the estimate is past the allocation limit. */
  method Out(hs: HStore, ghost ps: seq<Pair>) returns (r: Option<Bytes>)
    requires hs == Pack(ps)
    ensures r == if OutLen(ps) <= MAX_ALLOC then Some(Print(ps) + [0]) else None
  {
    if Count(hs) == 0 {
      assert ps == [] && Print(ps) + [0] == [0];
      return Some([0]);
    }
    var buflen := Estimate(hs, ps);
    if buflen > MAX_ALLOC {
      return None;
    }
    var out := new Byte[buflen];
    var end := WriteAll(out, hs, ps);
    end := Write(out, end, [0]);
    r := Some(out[..end]);
  }

  method Estimate(hs: HStore, ghost ps: seq<Pair>) returns (buflen: nat)
    requires hs == Pack(ps)
    ensures buflen == OutLen(ps)
  {
    buflen := 0;
    for i := 0 to Count(hs)
      invariant buflen == OutLen(ps[..i])
    {
      PackedOffsets(ps, i);
      Snoc(ps, i);
      buflen := buflen + (6 + 2 * KeyLen(hs, i) + 2 + if ValIsNull(hs, i) then 2 else 2 * ValLen(hs, i));
    }
    assert ps[..|ps|] == ps;
  }

  /** What is in the buffer when pair i comes next. */
  ghost function Lead(ps: seq<Pair>, i: nat): Bytes
    requires i <= |ps|
  {
    if i < |ps| then Print(ps[..i]) + Separator(ps[..i]) else Print(ps)
  }

  method WriteAll(out: array<Byte>, hs: HStore, ghost ps: seq<Pair>) returns (end: nat)
    requires hs == Pack(ps) && ps != [] && out.Length == OutLen(ps)
    modifies out
    ensures end < out.Length && out[..end] == Print(ps)
  {
    end := 0;
    OutLenSuffices(ps);
    for i := 0 to Count(hs)
      invariant end <= out.Length && out[..end] == Lead(ps, i)
    {
      var p := PairAt(hs, i, ps);
      end := WriteNext(out, end, p, i + 1 != Count(hs), ps, i);
    }
  }

  method WriteNext(out: array<Byte>, at: nat, p: Pair, more: bool, ghost ps: seq<Pair>, ghost i: nat) returns (end: nat)
    requires i < |ps| && p == ps[i] && more == (i + 1 < |ps|) && |Print(ps)| < out.Length
    requires at <= out.Length && out[..at] == Lead(ps, i)
    modifies out
    ensures end <= out.Length && out[..end] == Lead(ps, i + 1)
  {
    LeadStep(ps, i);
    end := WritePair(out, at, p);
    if more {
      end := Write(out, end, [COMMA, SPACE]);
    }
  }

  lemma {:induction false} LeadStep(ps: seq<Pair>, i: nat)
    requires i < |ps|
    ensures Lead(ps, i + 1) == Lead(ps, i) + PairText(ps[i]) + if i + 1 < |ps| then [COMMA, SPACE] else []
    ensures |Lead(ps, i + 1)| <= |Print(ps)|
  {
    assert Print(ps[..i + 1]) == Print(ps[..i]) + Separator(ps[..i]) + PairText(ps[i]) by {
      assert ps[..i + 1][..i] == ps[..i];
    }
    LeadFits(ps, i);
  }

  lemma {:induction false} LeadFits(ps: seq<Pair>, i: nat)
    requires i < |ps|
    ensures |Lead(ps, i + 1)| <= |Print(ps)|
  {
    if i + 1 < |ps| {
      PrintPrefix(ps, i + 2);
      assert ps[..i + 2][..i + 1] == ps[..i + 1];
    } else {
      assert ps[..i + 1] == ps;
    }
  }

  // ----- Input

  /** What a text is stored as: its pairs sorted, one for each key, and packed. */
  ghost function Stored(t: Bytes, sort: seq<Pair> -> seq<Pair>): Option<HStore> {
    match ReadText(t)
    case None => None
    case Some(prs) =>
      var u := FirstOfRuns(sort(prs));
      if Fits(u) then Some(Pack(u)) else None
  }

  /** hstore_in. */
  method Input(begin: Bytes, sort: seq<Pair> -> seq<Pair>) returns (r: Option<HStore>)
    requires Terminated(begin) && Sorts(sort)
    ensures r == Stored(Text(begin), sort)
  {
    var parser := new HsParser(begin);
    var ok := parser.ParseHstore();
    if !ok {
      return None;
    }
    var prs := parser.pairs.data[..parser.pairs.used];
    assert IsSorting(sort(prs), prs);
    if |prs| < 2 {
      ShortSorting(sort(prs), prs);
    }
    var s := if |prs| < 2 then prs else sort(prs);
    var a := new Pair[|s|](i requires 0 <= i < |s| => s[i]);
    assert a[..] == s;
    var n, buflen := UniquePairs(a);
    r := Build(a[..n], buflen);
  }

  lemma {:induction false} ShortSorting(s: seq<Pair>, ps: seq<Pair>)
    requires IsSorting(s, ps) && |ps| < 2
    ensures s == ps
  {
    assert |s| == |multiset(s)| == |multiset(ps)| == |ps|;
    if |ps| == 1 {
      assert ps[0] in multiset(s);
      assert s[0] == ps[0];
    }
  }

  /** Whatever is stored is well formed: every key of the text once, with one of its values there. */
  lemma {:induction false} StoredIsWellFormed(t: Bytes, sort: seq<Pair> -> seq<Pair>)
    requires Sorts(sort) && Stored(t, sort).Some?
    ensures exists rs :: IsStored(rs, t, sort)
  {
    var prs := ReadText(t).value;
    var s := sort(prs);
    assert IsSorting(s, prs);
    RunsAreSorted(s);
    RunsCover(s);
    var rs := FirstOfRuns(s);
    forall p | p in prs ensures p.key in ToMap(rs) {
      assert p in multiset(prs);
      assert p in s;
    }
    forall p | p in rs ensures p in prs {
      assert p in multiset(s);
    }
    assert IsStored(rs, t, sort);
  }

  ghost predicate IsStored(rs: seq<Pair>, t: Bytes, sort: seq<Pair> -> seq<Pair>) {
    && Parse(t).Some? && Admissible(Parse(t).value) && Stored(t, sort) == Some(Pack(rs)) && Sorted(rs) && Fits(rs)
    && (forall p | p in rs :: p in Parse(t).value)
    && (forall p | p in Parse(t).value :: p.key in ToMap(rs))
  }

  // ----- The round trip

  /** A list in strictly increasing order is its own only sorting. */
  lemma {:induction false} SortedStays(s: seq<Pair>, ps: seq<Pair>)
    requires IsSorting(s, ps) && Sorted(ps)
    ensures s == ps
  {
    forall i, j | 0 <= i < j < |s| ensures KeyLess(s[i].key, s[j].key) {
      NoTwins(s, ps, i, j);
      KeyCmpZero(s[i].key, s[j].key);
    }
    SamePairs(s, ps);
    SamePairs(ps, s);
    SortedIsUnique(s, ps);
  }

  lemma {:induction false} NoTwins(s: seq<Pair>, ps: seq<Pair>, i: nat, j: nat)
    requires multiset(s) == multiset(ps) && Sorted(ps) && i < j < |s|
    ensures s[i].key != s[j].key
  {
    var p := s[i];
    assert s[i] in multiset(s) && s[j] in multiset(s);
    var a :| 0 <= a < |ps| && ps[a] == s[i];
    var b :| 0 <= b < |ps| && ps[b] == s[j];
    KeyCmpZero(p.key, p.key);
    Once(ps, a);
    assert s == s[..j] + s[j..] && s[..j][i] == p && s[j] == s[j..][0];
    assert multiset(s) == multiset(s[..j]) + multiset(s[j..]);
  }

  lemma {:induction false} Once(ps: seq<Pair>, a: nat)
    requires Sorted(ps) && a < |ps|
    ensures multiset(ps)[ps[a]] == 1
  {
    var p := ps[a];
    KeyCmpZero(p.key, p.key);
    assert ps == ps[..a] + [p] + ps[a + 1..];
    assert p !in ps[..a] && p !in ps[a + 1..];
  }

  lemma {:induction false} SamePairs(s: seq<Pair>, ps: seq<Pair>)
    requires Sorted(s) && Sorted(ps) && multiset(s) == multiset(ps)
    ensures ToMap(s).Keys <= ToMap(ps).Keys
    ensures forall k | k in ToMap(s) :: k in ToMap(ps) && ToMap(s)[k] == ToMap(ps)[k]
  {
    forall k | k in ToMap(s) ensures k in ToMap(ps) && ToMap(s)[k] == ToMap(ps)[k] {
      MapKeys(s, k);
      var i :| 0 <= i < |s| && s[i].key == k;
      assert s[i] in multiset(ps);
      var j :| 0 <= j < |ps| && ps[j] == s[i];
      MapValue(s, i);
      MapValue(ps, j);
    }
  }

  lemma {:induction false} NoRuns(ps: seq<Pair>)
    requires Sorted(ps)
    ensures FirstOfRuns(ps) == ps
  {
    if ps != [] {
      var n := |ps| - 1;
      Snoc(ps, n);
      NoRuns(ps[..n]);
      if 0 < n {
        assert ps[..n][n - 1] == ps[n - 1];
        KeyCmpZero(ps[n - 1].key, ps[n].key);
      }
    }
  }

  lemma {:induction false} FitsIsShort(ps: seq<Pair>)
    requires Fits(ps)
    ensures AllShort(ps)
  {
    forall i | 0 <= i < |ps| ensures Short(ps[i]) {
      PackedBytes(ps, i);
    }
  }

  /** What is printed is stored again as the same value, bit for bit, exactly when no byte 0 is in it and there is room to read it; otherwise it is an error. */
  lemma {:induction false} OutputReadsBack(ps: seq<Pair>, sort: seq<Pair> -> seq<Pair>)
    requires Sorted(ps) && Fits(ps) && Sorts(sort)
    ensures Stored(CStr(Print(ps)), sort) == if AllClean(ps) && Admissible(ps) then Some(Pack(ps)) else None
  {
    FitsIsShort(ps);
    PrintReadsBackExactly(ps);
    assert IsSorting(sort(ps), ps);
    SortedStays(sort(ps), ps);
    NoRuns(ps);
  }

  lemma {:induction false} CStrOfBuffer(t: Bytes)
    ensures CStr(t + [0]) == CStr(t) && NoNul(CStr(t))
  {
    if t != [] && t[0] != 0 {
      CStrOfBuffer(t[1..]);
      assert (t + [0])[1..] == t[1..] + [0];
    }
  }

  /** Words that can be printed can be read: the estimate counts each byte twice. */
  lemma {:induction false} PrintableHasRoom(ps: seq<Pair>)
    requires OutLen(ps) <= MAX_ALLOC
    ensures Admissible(ps) <==> |ps| <= PAIRS_LIMIT
  {
    forall i | 0 <= i < |ps| ensures HasRoom(ps[i]) {
      OutLenOfPair(ps, i);
    }
  }

  lemma {:induction false} OutLenOfPair(ps: seq<Pair>, i: nat)
    requires i < |ps|
    ensures 2 * |ps[i].key| + 8 <= OutLen(ps) && 2 * |ValBytes(ps[i])| + 8 <= OutLen(ps)
  {
    if i < |ps| - 1 {
      OutLenOfPair(ps[..|ps| - 1], i);
    }
  }

  /**
    hstore_out and then hstore_in on its text: the same value, bit for bit,
    exactly if it has no byte 0, its estimate is within the allocation limit and
    it has no more pairs than the parser has room for; otherwise an error, of one
    or the other.
   */
  method RoundTrip(hs: HStore, sort: seq<Pair> -> seq<Pair>, ghost ps: seq<Pair>) returns (r: Option<HStore>)
    requires hs == Pack(ps) && Sorted(ps) && Fits(ps) && Sorts(sort)
    ensures r == if AllClean(ps) && OutLen(ps) <= MAX_ALLOC && |ps| <= PAIRS_LIMIT then Some(hs) else None
  {
    var text := Out(hs, ps);
    if text.None? {
      return None;
    }
    CStrOfBuffer(Print(ps));
    OutputReadsBack(ps, sort);
    PrintableHasRoom(ps);
    var begin := CStr(text.value) + [0];
    assert Text(begin) == CStr(Print(ps));
    r := Input(begin, sort);
  }

  // ----- A value that can be printed but not read

  /** Word number i of n bytes 1 and 2, in order. */
  function WordAt(n: nat, i: nat): (w: Bytes)
    ensures |w| == n && NoNul(w)
  {
    if n == 0 then []
    else if i < Doubled(1, n - 1) then [1] + WordAt(n - 1, i)
    else [2] + WordAt(n - 1, i - Doubled(1, n - 1))
  }

  lemma {:induction false} WordsInOrder(n: nat, i: nat, j: nat)
    requires i < j < Doubled(1, n)
    ensures KeyLess(WordAt(n, i), WordAt(n, j))
  {
    var half := Doubled(1, n - 1);
    var a, b := WordAt(n, i), WordAt(n, j);
    if j < half {
      WordsInOrder(n - 1, i, j);
      assert a[1..] == WordAt(n - 1, i) && b[1..] == WordAt(n - 1, j);
    } else if half <= i {
      WordsInOrder(n - 1, i - half, j - half);
      assert a[1..] == WordAt(n - 1, i - half) && b[1..] == WordAt(n - 1, j - half);
    }
  }

  /** The first count words of n bytes, each with a null. */
  function WordPairs(n: nat, count: nat): seq<Pair> {
    seq(count, (i: nat) => Pair(WordAt(n, i), Null))
  }

  lemma {:induction false} WordPairsSize(ps: seq<Pair>)
    requires forall i | 0 <= i < |ps| :: |ps[i].key| == 25 && ps[i].val.Null?
    ensures |StrOf(ps)| == 25 * |ps| && OutLen(ps) == 60 * |ps|
  {
    if ps != [] {
      WordPairsSize(ps[..|ps| - 1]);
    }
  }

  lemma {:induction false} WordPairsSorted(n: nat, count: nat)
    requires count <= Doubled(1, n)
    ensures Sorted(WordPairs(n, count)) && AllClean(WordPairs(n, count))
  {
    var ps := WordPairs(n, count);
    forall i, j | 0 <= i < j < |ps| ensures KeyLess(ps[i].key, ps[j].key) {
      WordsInOrder(n, i, j);
    }
  }

  lemma {:induction false} EnoughWords()
    ensures PAIRS_LIMIT < Doubled(1, 25)
  {
    assert Doubled(1, 12) == 0x1000;
    assert Doubled(1, 25) == 0x200_0000;
  }

  /** 2^24 + 1 keys of 25 bytes: a value that is printed, and whose text is refused. */
  lemma {:induction false} TooManyToRead() returns (ps: seq<Pair>)
    ensures Sorted(ps) && Fits(ps) && AllClean(ps) && OutLen(ps) <= MAX_ALLOC && |ps| == PAIRS_LIMIT + 1 && !Admissible(ps)
  {
    var n, count := 25, PAIRS_LIMIT + 1;
    EnoughWords();
    WordPairsSorted(n, count);
    ps := WordPairs(n, count);
    WordPairsSize(ps);
  }
}
