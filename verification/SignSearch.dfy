/**
  Descending a tree of signature keys. How a key came about does not matter, a
  union, a split or a vector of ones replaced by its flag: all that counts is that
  the key of a page has every bit of the keys on it.
 */
module SignSearch {
  import opened Signature

  /** A page with its key in the page above; a row at a leaf. */
  datatype Tree<R> = Leaf(key: Key, row: R) | Inner(key: Key, kids: seq<Tree<R>>)

  ghost predicate Grown<R(!new)>(t: Tree<R>, len: nat, rowBits: R -> set<nat>) {
    match t
    case Leaf(key, row) => KeyBits(key, len) == rowBits(row)
    case Inner(key, kids) => forall i | 0 <= i < |kids| :: Grown(kids[i], len, rowBits) && KeyBits(kids[i].key, len) <= KeyBits(key, len)
  }

  ghost predicate Below<R(!new)>(t: Tree<R>, row: R) {
    match t
    case Leaf(_, r) => r == row
    case Inner(_, kids) => exists i | 0 <= i < |kids| :: Below(kids[i], row)
  }

  /** The search gets to a leaf with the row, every key on the way being consistent. */
  ghost predicate Hit<R(!new)>(t: Tree<R>, row: R, leaf: Key -> bool, inner: Key -> bool) {
    match t
    case Leaf(key, r) => r == row && leaf(key)
    case Inner(key, kids) => inner(key) && exists i | 0 <= i < |kids| :: Hit(kids[i], row, leaf, inner)
  }

  lemma {:induction false} KeyCoversRow<R(!new)>(t: Tree<R>, row: R, len: nat, rowBits: R -> set<nat>)
    requires Grown(t, len, rowBits) && Below(t, row)
    ensures rowBits(row) <= KeyBits(t.key, len)
  {
    match t
    case Leaf(_, _) =>
    case Inner(_, kids) =>
      var i :| 0 <= i < |kids| && Below(kids[i], row);
      KeyCoversRow(kids[i], row, len, rowBits);
  }

  /** A test that never fails on a key with all bits of the row finds the row. */
  lemma {:induction false} SearchLosesNothing<R(!new)>(t: Tree<R>, row: R, len: nat, rowBits: R -> set<nat>, leaf: Key -> bool, inner: Key -> bool)
    requires Grown(t, len, rowBits) && Below(t, row)
    requires forall k :: KeyBits(k, len) == rowBits(row) ==> leaf(k)
    requires forall k :: rowBits(row) <= KeyBits(k, len) ==> inner(k)
    ensures Hit(t, row, leaf, inner)
  {
    match t
    case Leaf(_, _) =>
    case Inner(_, kids) =>
      KeyCoversRow(t, row, len, rowBits);
      var i :| 0 <= i < |kids| && Below(kids[i], row);
      SearchLosesNothing(kids[i], row, len, rowBits, leaf, inner);
  }

  /** A page whose key is the union of the keys on it is grown if they are. */
  lemma {:induction false} UnionGrows<R(!new)>(key: Key, kids: seq<Tree<R>>, keys: seq<Key>, len: nat, rowBits: R -> set<nat>)
    requires |keys| == |kids| && forall i | 0 <= i < |kids| :: keys[i] == kids[i].key && Grown(kids[i], len, rowBits)
    requires KeyBits(key, len) == Union(keys, len)
    ensures Grown(Inner(key, kids), len, rowBits)
  {
    forall i | 0 <= i < |kids| ensures KeyBits(kids[i].key, len) <= KeyBits(key, len) {
      UnionCovers(keys, len, i);
    }
  }

  /** So is either page that comes out of a split. */
  lemma {:induction false} SplitGrows<R(!new)>(key: Key, kids: seq<Tree<R>>, entries: seq<Key>, side: seq<nat>, len: nat, rowBits: R -> set<nat>)
    requires Offsets(entries, side) && KeyBits(key, len) == SideBits(entries, side, len)
    requires |kids| == |side| && forall i | 0 <= i < |kids| :: kids[i].key == entries[side[i]] && Grown(kids[i], len, rowBits)
    ensures Grown(Inner(key, kids), len, rowBits)
  {
    forall i | 0 <= i < |kids| ensures KeyBits(kids[i].key, len) <= KeyBits(key, len) {
      SideCovers(entries, side, i, len);
    }
  }
}
