/**
  Building an hstore value in place, contrib/hstore/hstore.h: HS_COPYITEM,
  HS_ADDITEM and HS_FINALIZE over one block of memory.

  The block starts with room for two entries per pair of a provisional count;
  the string area comes right after it. When fewer pairs were written than were
  planned for, finalizing moves the string area down over the unused entries. An
  entry is one cell of the block here, whatever its width in bytes.
 */
module HsBuild {
  import opened HsLayout

  datatype Cell = Ent(e: Entry) | Chr(b: Byte)

  function Mask(pos: nat): nat {
    pos % POS_LIMIT
  }

  lemma {:induction false} MaskKeeps(a: nat, b: nat)
    requires a <= b < POS_LIMIT
    ensures Mask(a) == a && Mask(b) == b
  {
  }

  ghost function AsEntries(es: seq<Entry>): (c: seq<Cell>)
    ensures |c| == |es| && forall i | 0 <= i < |c| :: c[i] == Ent(es[i])
  {
    seq(|es|, i requires 0 <= i < |es| => Ent(es[i]))
  }

  ghost function AsBytes(bs: Bytes): (c: seq<Cell>)
    ensures |c| == |bs| && forall i | 0 <= i < |c| :: c[i] == Chr(bs[i])
  {
    seq(|bs|, i requires 0 <= i < |bs| => Chr(bs[i]))
  }

  function ReadEntries(cells: seq<Cell>): (es: seq<Entry>)
    requires forall i | 0 <= i < |cells| :: cells[i].Ent?
    ensures |es| == |cells| && forall i | 0 <= i < |es| :: cells[i] == Ent(es[i])
  {
    seq(|cells|, i requires 0 <= i < |cells| => cells[i].e)
  }

  function ReadBytes(cells: seq<Cell>): (bs: Bytes)
    requires forall i | 0 <= i < |cells| :: cells[i].Chr?
    ensures |bs| == |cells| && forall i | 0 <= i < |bs| :: cells[i] == Chr(bs[i])
  {
    seq(|cells|, i requires 0 <= i < |cells| => cells[i].b)
  }

  lemma {:induction false} AsEntriesConcat(a: seq<Entry>, b: seq<Entry>)
    ensures AsEntries(a + b) == AsEntries(a) + AsEntries(b)
  {
  }

  lemma {:induction false} AsBytesConcat(a: Bytes, b: Bytes)
    ensures AsBytes(a + b) == AsBytes(a) + AsBytes(b)
  {
  }

  lemma {:induction false} Appended(front: seq<Pair>, p: Pair)
    ensures StrOf(front + [p]) == StrOf(front) + PairBytes(p)
    ensures EntriesOf(front + [p]) == EntriesOf(front) + EntriesAt(p, |StrOf(front)|)
  {
    assert (front + [p])[..|front + [p]| - 1] == front;
  }

  /** The cells of one more pair. */
  lemma {:induction false} AppendedCells(front: seq<Pair>, p: Pair, k: Entry, v: Entry)
    requires [k, v] == EntriesAt(p, |StrOf(front)|)
    ensures AsBytes(StrOf(front + [p])) == AsBytes(StrOf(front)) + AsBytes(PairBytes(p))
    ensures AsEntries(EntriesOf(front + [p])) == AsEntries(EntriesOf(front)) + [Ent(k), Ent(v)]
    ensures |StrOf(front + [p])| == |StrOf(front)| + |PairBytes(p)|
  {
    Appended(front, p);
    AsBytesConcat(StrOf(front), PairBytes(p));
    AsEntriesConcat(EntriesOf(front), [k, v]);
    assert AsEntries([k, v]) == [Ent(k), Ent(v)];
  }

  /** memcpy into a block. */
  method MemCpy(mem: array<Cell>, at: nat, src: Bytes)
    requires at + |src| <= mem.Length
    modifies mem
    ensures mem[..at] == old(mem[..at]) && mem[at..at + |src|] == AsBytes(src)
  {
    for i := 0 to |src|
      invariant mem[..at] == old(mem[..at])
      invariant mem[at..at + i] == AsBytes(src)[..i]
    {
      mem[at + i] := Chr(src[i]);
    }
  }

  /** memmove towards lower addresses. */
  method MemMoveDown(mem: array<Cell>, dst: nat, src: nat, n: nat)
    requires dst <= src && src + n <= mem.Length
    modifies mem
    ensures mem[..dst] == old(mem[..dst]) && mem[dst..dst + n] == old(mem[src..src + n])
  {
    ghost var was := mem[..];
    for i := 0 to n
      invariant mem[..dst] == was[..dst]
      invariant mem[dst..dst + i] == was[src..src + i]
      invariant mem[src + i..] == was[src + i..]
    {
      assert mem[src + i] == mem[src + i..][0];
      assert mem[src + i + 1..] == mem[src + i..][1..];
      mem[dst + i] := mem[src + i];
    }
  }

  /** What a write at the end of the string area changes. */
  lemma {:induction false} Grown(was: seq<Cell>, now: seq<Cell>, e: nat, s: nat, at: nat, more: seq<Cell>)
    requires e <= s <= at && at + |more| <= |now| == |was|
    requires now[..at] == was[..at] && now[at..at + |more|] == more
    ensures now[..e] == was[..e] && now[s..at + |more|] == was[s..at] + more
  {
    assert now[..e] == now[..at][..e] && was[..e] == was[..at][..e];
    assert now[s..at] == now[..at][s..] && was[s..at] == was[..at][s..];
  }

  lemma {:induction false} SameEntries(a: seq<Entry>, b: seq<Entry>)
    requires AsEntries(a) == AsEntries(b)
    ensures a == b
  {
    assert |a| == |AsEntries(a)| == |b|;
    forall i | 0 <= i < |a| ensures a[i] == b[i] {
      assert AsEntries(a)[i] == AsEntries(b)[i];
    }
  }

  lemma {:induction false} SameBytes(a: Bytes, b: Bytes)
    requires AsBytes(a) == AsBytes(b)
    ensures a == b
  {
    assert |a| == |AsBytes(a)| == |b|;
    forall i | 0 <= i < |a| ensures a[i] == b[i] {
      assert AsBytes(a)[i] == AsBytes(b)[i];
    }
  }

  lemma {:induction false} Regrouped(a: seq<Cell>, b: seq<Cell>, c: seq<Cell>)
    ensures (a + b) + c == a + (b + c)
    ensures c == [] ==> a + b == a + (b + c)
  {
  }

  class Builder {
    const planned: nat
    const mem: array<Cell>
    var count: nat
    var len: nat
    ghost var pairs: seq<Pair>

    ghost predicate Valid()
      reads this, mem
    {
      && count == |pairs| <= planned && len == |StrOf(pairs)| && 2 * planned + len <= mem.Length
      && mem[..2 * count] == AsEntries(EntriesOf(pairs))
      && mem[2 * planned..2 * planned + len] == AsBytes(StrOf(pairs))
    }

    constructor (planned: nat, bytes: nat)
      ensures Valid() && fresh(mem) && pairs == [] && this.planned == planned && mem.Length == 2 * planned + bytes
    {
      this.planned := planned;
      this.mem := new Cell[2 * planned + bytes](i => Chr(0));
      this.count, this.len, this.pairs := 0, 0, [];
    }

    /** HS_COPYITEM: the bytes of a key and its value, contiguous at their source, and their two entries. */
    method CopyItem(src: Bytes, klen: nat, vlen: nat, vnull: bool, ghost p: Pair)
      requires Valid() && count < planned && 2 * planned + len + |src| <= mem.Length && len + |src| < POS_LIMIT
      requires src == PairBytes(p) && klen == |p.key| && vlen == |ValBytes(p)| && vnull == p.val.Null?
      modifies this, mem
      ensures Valid() && pairs == old(pairs) + [p]
    {
      CopyBytes(src);
      var k, v := Entry(false, false, Mask(len - vlen)), Entry(false, vnull, Mask(len));
      assert [k, v] == EntriesAt(p, |StrOf(pairs)|) by {
        MaskKeeps(len - vlen, len);
      }
      AppendedCells(pairs, p, k, v);
      PutPair(k, v, pairs + [p]);
    }

    /** HS_ADDITEM: a key, and a value unless it is null, each from its own place. */
    method AddItem(p: Pair)
      requires Valid() && count < planned && 2 * planned + len + |PairBytes(p)| <= mem.Length && len + |PairBytes(p)| < POS_LIMIT
      modifies this, mem
      ensures Valid() && pairs == old(pairs) + [p]
    {
      MaskKeeps(len + |p.key|, len + |PairBytes(p)|);
      var keyEnd := AddBytes(p);
      AppendedCells(pairs, p, Entry(false, false, Mask(keyEnd)), Entry(false, p.val.Null?, Mask(len)));
      PutPair(Entry(false, false, Mask(keyEnd)), Entry(false, p.val.Null?, Mask(len)), pairs + [p]);
    }

    method AddBytes(p: Pair) returns (keyEnd: nat)
      requires count <= planned && 2 * planned + len + |PairBytes(p)| <= mem.Length
      modifies this`len, mem
      ensures mem[..2 * count] == old(mem[..2 * count]) && len == old(len) + |PairBytes(p)| && keyEnd == old(len) + |p.key|
      ensures mem[2 * planned..2 * planned + len] == old(mem[2 * planned..2 * planned + len]) + AsBytes(PairBytes(p))
    {
      AsBytesConcat(p.key, ValBytes(p));
      ghost var strs, k, v := mem[2 * planned..2 * planned + len], AsBytes(p.key), AsBytes(ValBytes(p));
      Regrouped(strs, k, v);
      CopyBytes(p.key);
      keyEnd := len;
      if !p.val.Null? {
        CopyBytes(p.val.s);
      }
    }

    method PutPair(k: Entry, v: Entry, ghost all: seq<Pair>)
      requires count < planned && |all| == count + 1 && len == |StrOf(all)| && 2 * planned + len <= mem.Length
      requires AsEntries(EntriesOf(all)) == mem[..2 * count] + [Ent(k), Ent(v)]
      requires AsBytes(StrOf(all)) == mem[2 * planned..2 * planned + len]
      modifies this`count, this`pairs, mem
      ensures Valid() && pairs == all
    {
      PutEntries(k, v, 2 * planned + len);
      count := count + 1;
      pairs := all;
    }

    method CopyBytes(src: Bytes)
      requires count <= planned && 2 * planned + len + |src| <= mem.Length
      modifies this`len, mem
      ensures len == old(len) + |src| && mem[..2 * count] == old(mem[..2 * count])
      ensures mem[2 * planned..2 * planned + len] == old(mem[2 * planned..2 * planned + len]) + AsBytes(src)
    {
      ghost var was := mem[..];
      MemCpy(mem, 2 * planned + len, src);
      Grown(was, mem[..], 2 * count, 2 * planned, 2 * planned + len, AsBytes(src));
      len := len + |src|;
    }

    method PutEntries(k: Entry, v: Entry, ghost end: nat)
      requires count < planned && 2 * planned <= end <= mem.Length
      modifies mem
      ensures mem[..2 * (count + 1)] == old(mem[..2 * count]) + [Ent(k), Ent(v)]
      ensures mem[2 * planned..end] == old(mem[2 * planned..end])
    {
      mem[2 * count] := Ent(k);
      mem[2 * count + 1] := Ent(v);
    }

    /** HS_FINALIZE: flag the first entry, and close the gap if there is one; what is read off is the packed value. */
    method Finalize() returns (hs: HStore)
      requires Valid()
      modifies mem
      ensures hs == Pack(pairs)
    {
      ghost var es, bs := MarkFirst(EntriesOf(pairs)), StrOf(pairs);
      FlagFirst();
      CloseGap(AsEntries(es), AsBytes(bs));
      hs := Read(es, bs);
    }

    method CloseGap(ghost ents: seq<Cell>, ghost strs: seq<Cell>)
      requires count <= planned && 2 * planned + len <= mem.Length
      requires mem[..2 * count] == ents && mem[2 * planned..2 * planned + len] == strs
      modifies mem
      ensures mem[..2 * count] == ents && mem[2 * count..2 * count + len] == strs
    {
      if count != planned {
        MemMoveDown(mem, 2 * count, 2 * planned, len);
      }
    }

    /** The value in the block, as the functions that take one see it. */
    method Read(ghost es: seq<Entry>, ghost bs: Bytes) returns (hs: HStore)
      requires 2 * count + len <= mem.Length
      requires mem[..2 * count] == AsEntries(es) && mem[2 * count..2 * count + len] == AsBytes(bs)
      ensures hs == HStore(es, bs)
    {
      hs := HStore(ReadEntries(mem[..2 * count]), ReadBytes(mem[2 * count..2 * count + len]));
      assert AsEntries(hs.entries) == AsEntries(es);
      assert AsBytes(hs.str) == AsBytes(bs);
      SameEntries(hs.entries, es);
      SameBytes(hs.str, bs);
    }

    method FlagFirst()
      requires Valid()
      modifies mem
      ensures count == |pairs| <= planned && 2 * planned + len <= mem.Length
      ensures mem[..2 * count] == AsEntries(MarkFirst(EntriesOf(pairs)))
      ensures mem[2 * planned..2 * planned + len] == AsBytes(StrOf(pairs))
    {
      if count != 0 {
        ghost var es := EntriesOf(pairs);
        assert mem[0] == mem[..2 * count][0] == Ent(es[0]);
        mem[0] := Ent(mem[0].e.(isFirst := true));
        assert mem[..2 * count] == old(mem[..2 * count])[0 := mem[0]] == AsEntries(MarkFirst(es));
      }
    }
  }
}
