/**
  The btree order of hstore values, contrib/hstore/hstore_op.c: bytes first, then
  the number of pairs, then positions and null flags. It is a total order whose
  equality is equality of maps.
 */
module HsCompare {
  import opened HsLayout
  import opened HsOrder

  // ----- Lexicographic order, a proper prefix first

  function Sign(n: int): int {
    if n < 0 then -1 else if n == 0 then 0 else 1
  }

  ghost function Lex(a: seq<int>, b: seq<int>): int {
    if a == [] || b == [] then Sign(|a| - |b|)
    else if a[0] != b[0] then Sign(a[0] - b[0])
    else Lex(a[1..], b[1..])
  }

  lemma {:induction false} LexZero(a: seq<int>, b: seq<int>)
    ensures Lex(a, b) == 0 <==> a == b
  {
    if a != [] && b != [] {
      LexZero(a[1..], b[1..]);
      assert a == [a[0]] + a[1..] && b == [b[0]] + b[1..];
    }
  }

  lemma {:induction false} LexFlips(a: seq<int>, b: seq<int>)
    ensures Lex(b, a) == -Lex(a, b)
  {
    if a != [] && b != [] {
      LexFlips(a[1..], b[1..]);
    }
  }

  lemma {:induction false} LexTransitive(a: seq<int>, b: seq<int>, c: seq<int>)
    requires Lex(a, b) <= 0 && Lex(b, c) <= 0
    ensures Lex(a, c) <= 0 && (Lex(a, c) == 0 ==> Lex(a, b) == 0 && Lex(b, c) == 0)
  {
    if a != [] && b != [] && c != [] && a[0] == b[0] == c[0] {
      LexTransitive(a[1..], b[1..], c[1..]);
    }
  }

  lemma {:induction false} LexAt(a: seq<int>, b: seq<int>, i: nat)
    requires i <= |a| && i <= |b| && a[..i] == b[..i]
    requires i < |a| && i < |b| ==> a[i] != b[i]
    ensures Lex(a, b) == if i < |a| && i < |b| then Sign(a[i] - b[i]) else Sign(|a| - |b|)
  {
    if 0 < i {
      assert a[0] == a[..i][0] && b[0] == b[..i][0];
      assert a[1..][..i - 1] == a[..i][1..] && b[1..][..i - 1] == b[..i][1..];
      LexAt(a[1..], b[1..], i - 1);
    }
  }

  /** memcmp over the shorter length, and then the lengths. */
  lemma {:induction false} LexOfBytes(a: Bytes, b: Bytes, m: nat)
    requires m <= |a| && m <= |b| && (m == |a| || m == |b|)
    ensures Lex(a, b) == var d := MemCmp(a[..m], b[..m]); if d != 0 then Sign(d) else Sign(|a| - |b|)
  {
    if 0 < m {
      LexOfBytes(a[1..], b[1..], m - 1);
      assert a[..m][1..] == a[1..][..m - 1] && b[..m][1..] == b[1..][..m - 1];
    }
  }

  // ----- The order of values

  /** Position first, then the null flag. */
  function Rank(e: Entry): nat {
    e.endPos * 2 + if e.isNull then 1 else 0
  }

  function Ranks(es: seq<Entry>): (r: seq<int>)
    ensures |r| == |es| && forall i | 0 <= i < |r| :: r[i] == Rank(es[i])
  {
    seq(|es|, i requires 0 <= i < |es| => Rank(es[i]))
  }

  ghost function Order(a: HStore, b: HStore): int {
    if |a.entries| == 0 || |b.entries| == 0 then Sign(|a.entries| - |b.entries|)
    else if Lex(a.str, b.str) != 0 then Lex(a.str, b.str)
    else if |a.entries| != |b.entries| then Sign(|a.entries| - |b.entries|)
    else Lex(Ranks(a.entries), Ranks(b.entries))
  }

  lemma {:induction false} OrderFlips(a: HStore, b: HStore)
    ensures Order(b, a) == -Order(a, b)
  {
    LexFlips(a.str, b.str);
    LexFlips(Ranks(a.entries), Ranks(b.entries));
  }

  lemma {:induction false} OrderTransitive(a: HStore, b: HStore, c: HStore)
    requires Order(a, b) <= 0 && Order(b, c) <= 0
    ensures Order(a, c) <= 0 && (Order(a, c) == 0 ==> Order(a, b) == 0 && Order(b, c) == 0)
  {
    if |a.entries| != 0 && |b.entries| != 0 && |c.entries| != 0 {
      LexTransitive(a.str, b.str, c.str);
      if Lex(a.str, b.str) == 0 && Lex(b.str, c.str) == 0 {
        LexZero(a.str, b.str);
        LexZero(b.str, c.str);
        LexZero(a.str, c.str);
        if |a.entries| == |b.entries| == |c.entries| {
          LexTransitive(Ranks(a.entries), Ranks(b.entries), Ranks(c.entries));
        }
      }
    }
  }

  /** Values compare equal exactly when they are the same map, and then they are the same bytes, for hstore_hash too. */
  lemma {:induction false} OrderIsOfMaps(a: HStore, b: HStore, m: map<Bytes, Value>, n: map<Bytes, Value>)
    requires Represents(a, m) && Represents(b, n)
    ensures Order(a, b) == 0 <==> m == n
    ensures a == b <==> m == n
  {
    RepresentsOne(a, b, m, n);
    LexZero(a.str, b.str);
    LexZero(Ranks(a.entries), Ranks(b.entries));
    if Order(a, b) == 0 {
      var ps :| Sorted(ps) && Fits(ps) && a == Pack(ps) && ToMap(ps) == m;
      var qs :| Sorted(qs) && Fits(qs) && b == Pack(qs) && ToMap(qs) == n;
      SameRanks(ps, qs);
    }
  }

  lemma {:induction false} SameRanks(ps: seq<Pair>, qs: seq<Pair>)
    requires |ps| == |qs| && Ranks(Pack(ps).entries) == Ranks(Pack(qs).entries)
    ensures Pack(ps).entries == Pack(qs).entries
  {
    var e, f := Pack(ps).entries, Pack(qs).entries;
    forall i | 0 <= i < |e| ensures e[i] == f[i] {
      assert Rank(e[i]) == Ranks(e)[i] == Ranks(f)[i] == Rank(f[i]);
      PackedEntries(ps, i / 2);
      PackedEntries(qs, i / 2);
      assert i == 2 * (i / 2) || i == 2 * (i / 2) + 1;
    }
  }

  /** Entries agree in position and null flag before place i. */
  ghost predicate SameTo(e: seq<Entry>, f: seq<Entry>, i: nat) {
    i <= |e| && i <= |f| && forall j | 0 <= j < i :: e[j].endPos == f[j].endPos && e[j].isNull == f[j].isNull
  }

  /** The first byte that differs decides, then the length. */
  lemma {:induction false} BytesDecide(a: HStore, b: HStore)
    requires a.entries != [] && b.entries != []
    ensures forall i | 0 <= i < |a.str| && i < |b.str| && a.str[..i] == b.str[..i] && a.str[i] != b.str[i] ::
              Order(a, b) == if a.str[i] < b.str[i] then -1 else 1
    ensures a.str < b.str ==> Order(a, b) == -1
    ensures b.str < a.str ==> Order(a, b) == 1
  {
    forall i | 0 <= i < |a.str| && i < |b.str| && a.str[..i] == b.str[..i] && a.str[i] != b.str[i]
      ensures Order(a, b) == if a.str[i] < b.str[i] then -1 else 1
    {
      LexAt(a.str, b.str, i);
    }
    if a.str < b.str {
      LexAt(a.str, b.str, |a.str|);
    }
    if b.str < a.str {
      LexAt(a.str, b.str, |b.str|);
    }
  }

  /** With equal bytes the first entry that differs decides, if there are equally many. */
  lemma {:induction false} EntriesDecide(a: HStore, b: HStore)
    requires a.entries != [] && |a.entries| == |b.entries| && a.str == b.str
    ensures forall i | 0 <= i < |a.entries| && SameTo(a.entries, b.entries, i) && !SameTo(a.entries, b.entries, i + 1) ::
              Order(a, b) == var e, f := a.entries[i], b.entries[i];
                             if e.endPos < f.endPos || (e.endPos == f.endPos && !e.isNull) then -1 else 1
    ensures SameTo(a.entries, b.entries, |a.entries|) ==> Order(a, b) == 0
  {
    var r, s := Ranks(a.entries), Ranks(b.entries);
    LexZero(a.str, b.str);
    forall i | 0 <= i < |r| && SameTo(a.entries, b.entries, i) && !SameTo(a.entries, b.entries, i + 1)
      ensures Order(a, b) == var e, f := a.entries[i], b.entries[i];
                             if e.endPos < f.endPos || (e.endPos == f.endPos && !e.isNull) then -1 else 1
    {
      assert r[..i] == s[..i];
      LexAt(r, s, i);
    }
    if SameTo(a.entries, b.entries, |a.entries|) {
      assert r == s;
      LexZero(r, s);
    }
  }

  /**
    hstore_cmp. An empty value is below every other; then the first byte that differs
    decides, a proper prefix being smaller; then the number of pairs; then the first
    entry that differs, the smaller position first and a string before a null.
   */
  method Cmp(hs1: HStore, hs2: HStore, ghost ps: seq<Pair>, ghost qs: seq<Pair>) returns (res: int)
    requires hs1 == Pack(ps) && hs2 == Pack(qs)
    ensures res == Order(hs1, hs2)
    ensures ps == [] || qs == [] ==> res == if ps != [] then 1 else if qs != [] then -1 else 0
    ensures ps != [] && qs != [] ==>
              && (forall i | 0 <= i < |hs1.str| && i < |hs2.str| && hs1.str[..i] == hs2.str[..i] && hs1.str[i] != hs2.str[i] ::
                    res == if hs1.str[i] < hs2.str[i] then -1 else 1)
              && (hs1.str < hs2.str ==> res == -1) && (hs2.str < hs1.str ==> res == 1)
    ensures ps != [] && qs != [] && hs1.str == hs2.str && |ps| != |qs| ==> res == if |ps| < |qs| then -1 else 1
    ensures ps != [] && |ps| == |qs| && hs1.str == hs2.str ==>
              && (forall i | 0 <= i < |hs1.entries| && SameTo(hs1.entries, hs2.entries, i) && !SameTo(hs1.entries, hs2.entries, i + 1) ::
                    res == var e, f := hs1.entries[i], hs2.entries[i];
                           if e.endPos < f.endPos || (e.endPos == f.endPos && !e.isNull) then -1 else 1)
              && (SameTo(hs1.entries, hs2.entries, |hs1.entries|) ==> res == 0)
  {
    res := CmpByOrder(hs1, hs2, ps, qs);
    assert |hs1.entries| == 2 * |ps| && |hs2.entries| == 2 * |qs|;
    if ps != [] && qs != [] {
      BytesDecide(hs1, hs2);
      LexZero(hs1.str, hs2.str);
      if |ps| == |qs| && hs1.str == hs2.str {
        EntriesDecide(hs1, hs2);
      }
    }
  }

  method CmpByOrder(hs1: HStore, hs2: HStore, ghost ps: seq<Pair>, ghost qs: seq<Pair>) returns (res: int)
    requires hs1 == Pack(ps) && hs2 == Pack(qs)
    ensures res == Order(hs1, hs2)
  {
    var count1, count2 := Count(hs1), Count(hs2);
    assert count1 == |ps| && count2 == |qs| && |hs1.entries| == 2 * |ps| && |hs2.entries| == 2 * |qs|;
    if count1 == 0 || count2 == 0 {
      return if count1 > 0 then 1 else if count2 > 0 then -1 else 0;
    }
    LastEnd(ps);
    LastEnd(qs);
    var len1, len2 := hs1.entries[2 * count1 - 1].endPos, hs2.entries[2 * count2 - 1].endPos;
    var m := if len1 < len2 then len1 else len2;
    res := MemCmp(hs1.str[..m], hs2.str[..m]);
    LexOfBytes(hs1.str, hs2.str, m);
    if res != 0 {
      res := if res > 0 then 1 else -1;
    } else if len1 != len2 {
      res := if len1 > len2 then 1 else -1;
    } else if count1 != count2 {
      res := if count1 > count2 then 1 else -1;
    } else {
      res := CmpEntries(hs1.entries, hs2.entries);
    }
  }

  method CmpEntries(e: seq<Entry>, f: seq<Entry>) returns (res: int)
    requires |e| == |f|
    ensures res == Lex(Ranks(e), Ranks(f))
  {
    var i := 0;
    while i < |e| && e[i].endPos == f[i].endPos && e[i].isNull == f[i].isNull
      invariant i <= |e| && Ranks(e)[..i] == Ranks(f)[..i]
    {
      Snoc(Ranks(e), i);
      Snoc(Ranks(f), i);
      i := i + 1;
    }
    LexAt(Ranks(e), Ranks(f), i);
    if i == |e| {
      return 0;
    } else if e[i].endPos != f[i].endPos {
      return if e[i].endPos < f[i].endPos then -1 else 1;
    } else {
      return if e[i].isNull then 1 else -1;
    }
  }
}
