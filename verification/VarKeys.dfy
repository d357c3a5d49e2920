/**
  Index keys for byte strings, contrib/btree_gist/btree_utils_var.c with the
  settings of btree_bytea.c: bounds compare bytewise, and the bounds of an inner
  key are cut off two bytes after their common prefix.

  Cutting a lower bound lowers it. Cutting an upper bound lowers it too, so a
  value below may end up above it; such a value starts with the bound, and the
  bound is at least two bytes longer than the key's common prefix. Both facts
  survive any number of unions.
 */
module VarKeys {

  type Byte = b: int | 0 <= b < 256

  type Bytes = seq<Byte>

  datatype Key = Key(lower: Bytes, upper: Bytes)

  function Min(a: nat, b: nat): nat {
    if a <= b then a else b
  }

  function Max(a: nat, b: nat): nat {
    if a <= b then b else a
  }

  // ----- Comparing

  /** Length of the common prefix. */
  function CpLen(a: Bytes, b: Bytes): (n: nat)
    ensures n <= |a| && n <= |b| && a[..n] == b[..n]
    ensures n < |a| && n < |b| ==> a[n] != b[n]
  {
    if a != [] && b != [] && a[0] == b[0] then
      var n := CpLen(a[1..], b[1..]);
      assert a[..n + 1] == [a[0]] + a[1..][..n] && b[..n + 1] == [b[0]] + b[1..][..n];
      n + 1
    else 0
  }

  /** f_cmp: bytewise, a proper prefix first. */
  function Cmp(a: Bytes, b: Bytes): int {
    var n := CpLen(a, b);
    if n < |a| && n < |b| then (if a[n] < b[n] then -1 else 1)
    else if |a| < |b| then -1
    else if |a| > |b| then 1
    else 0
  }

  predicate Le(a: Bytes, b: Bytes) {
    Cmp(a, b) <= 0
  }

  /** Where two strings first part is where their common prefix ends. */
  lemma {:induction false} PartAt(a: Bytes, b: Bytes, n: nat)
    requires n <= |a| && n <= |b| && a[..n] == b[..n]
    requires n < |a| && n < |b| ==> a[n] != b[n]
    ensures CpLen(a, b) == n
    decreases n
  {
    if n != 0 {
      assert a[0] == a[..n][0] == b[..n][0] == b[0];
      assert a[1..][..n - 1] == a[..n][1..] && b[1..][..n - 1] == b[..n][1..];
      PartAt(a[1..], b[1..], n - 1);
    }
  }

  lemma {:induction false} CmpIsZero(a: Bytes, b: Bytes)
    ensures Cmp(a, b) == 0 <==> a == b
  {
    var n := CpLen(a, b);
    if Cmp(a, b) == 0 {
      assert a == a[..n] && b == b[..n];
    }
    if a == b {
      assert n == |a|;
    }
  }

  lemma {:induction false} CmpFlips(a: Bytes, b: Bytes)
    ensures Cmp(b, a) == -Cmp(a, b)
  {
    PartAt(b, a, CpLen(a, b));
  }

  /** a <= b says: a ends where they part, or has the smaller byte there. */
  lemma {:induction false} LeMeans(a: Bytes, b: Bytes)
    ensures var n := CpLen(a, b); Le(a, b) <==> n == |a| || (n < |a| && n < |b| && a[n] < b[n])
  {
  }

  /** Of three ordered strings the outer two part no later than either neighbours. */
  lemma {:induction false} Sandwich(a: Bytes, b: Bytes, c: Bytes)
    requires Le(a, b) && Le(b, c)
    ensures Le(a, c)
    ensures CpLen(a, c) <= CpLen(a, b) && CpLen(a, c) <= CpLen(b, c)
  {
    if a != [] && c != [] && a[0] == c[0] {
      FirstByte(a, b);
      FirstByte(b, c);
      FirstByte(a, c);
      Sandwich(a[1..], b[1..], c[1..]);
    } else {
      FirstByte(a, b);
      FirstByte(b, c);
    }
  }

  lemma {:induction false} FirstByte(a: Bytes, b: Bytes)
    ensures Le(a, b) <==> a == [] || (b != [] && (a[0] < b[0] || (a[0] == b[0] && Le(a[1..], b[1..]))))
  {
  }

  predicate Prefix(p: Bytes, s: Bytes) {
    |p| <= |s| && s[..|p|] == p
  }

  lemma {:induction false} PrefixMeans(p: Bytes, s: Bytes)
    ensures Prefix(p, s) <==> CpLen(p, s) == |p|
    ensures Prefix(p, s) ==> Le(p, s)
  {
    if Prefix(p, s) {
      assert p[..|p|] == p;
      PartAt(p, s, |p|);
    }
    if CpLen(p, s) == |p| {
      assert p[..|p|] == p;
    }
  }

  /** What lies between a string and one of its extensions extends it too. */
  lemma {:induction false} BetweenExtensions(p: Bytes, a: Bytes, b: Bytes)
    requires Prefix(p, b) && Le(p, a) && Le(a, b)
    ensures Prefix(p, a)
  {
    PrefixMeans(p, b);
    Sandwich(p, a, b);
    PrefixMeans(p, a);
  }

  /** A string above a cut-off bound but not above the bound starts with what is left of it. */
  lemma {:induction false} AboveTheCut(v: Bytes, u: Bytes, n: nat)
    requires n <= |u| && Le(v, u) && !Le(v, u[..n])
    ensures Prefix(u[..n], v)
  {
    CmpFlips(v, u[..n]);
    assert Prefix(u[..n], u);
    BetweenExtensions(u[..n], v, u);
  }

  // ----- Node keys

  /** gbt_var_node_cp_len: the common prefix length, found byte by byte. */
  method NodeCpLen(k: Key) returns (i: nat)
    ensures i == CpLen(k.lower, k.upper)
  {
    var ml := Min(|k.lower|, |k.upper|);
    i := 0;
    while i < ml
      invariant i <= ml && k.lower[..i] == k.upper[..i]
    {
      if k.lower[i] != k.upper[i] {
        break;
      }
      i := i + 1;
    }
    PartAt(k.lower, k.upper, i);
  }

  /** gbt_var_node_truncate: both bounds keep at most cpf + 1 bytes. */
  function Truncate(k: Key, cpf: nat): Key {
    Key(k.lower[..Min(|k.lower|, cpf + 1)], k.upper[..Min(|k.upper|, cpf + 1)])
  }

  /** gbt_var_bin_union. */
  function BinUnion(u: Key, e: Key): Key {
    Key(if Cmp(u.lower, e.lower) > 0 then e.lower else u.lower,
        if Cmp(u.upper, e.upper) < 0 then e.upper else u.upper)
  }

  function Cp(k: Key): nat {
    CpLen(k.lower, k.upper)
  }

  predicate Ordered(k: Key) {
    Le(k.lower, k.upper)
  }

  /** The key tells that v may be below it. */
  predicate Covers(k: Key, v: Bytes) {
    Le(k.lower, v) && (Le(v, k.upper) || (Prefix(k.upper, v) && |k.upper| >= Cp(k) + 2))
  }

  /** What is left of that before the key is cut. */
  predicate WillCover(k: Key, v: Bytes) {
    Le(k.lower, v) && (Le(v, k.upper) || (|k.upper| >= Cp(k) + 2 && Prefix(k.upper[..Cp(k) + 2], v)))
  }

  lemma {:induction false} CoversWillCover(k: Key, v: Bytes)
    requires Covers(k, v)
    ensures WillCover(k, v)
  {
    if !Le(v, k.upper) {
      assert v[..Cp(k) + 2] == v[..|k.upper|][..Cp(k) + 2];
    }
  }

  /** Cutting past the common prefix keeps the common prefix. */
  lemma {:induction false} TruncateKeepsCp(k: Key, cpf: nat)
    requires Cp(k) <= cpf
    ensures Cp(Truncate(k, cpf)) == Cp(k)
  {
    var t, n := Truncate(k, cpf), Cp(k);
    assert t.lower[..n] == k.lower[..n] && t.upper[..n] == k.upper[..n];
    PartAt(t.lower, t.upper, n);
  }

  lemma {:induction false} TruncateIsPrefix(s: Bytes, n: nat)
    requires n <= |s|
    ensures Prefix(s[..n], s) && Le(s[..n], s)
  {
    PrefixMeans(s[..n], s);
  }

  /** The cut of gbt_var_union: two bytes past the common prefix. */
  lemma {:induction false} CutCovers(k: Key, v: Bytes)
    requires WillCover(k, v)
    ensures Covers(Truncate(k, Cp(k) + 1), v)
  {
    var t, n := Truncate(k, Cp(k) + 1), Cp(k);
    assert Cp(t) == n by {
      TruncateKeepsCp(k, n + 1);
    }
    assert Le(t.lower, v) by {
      TruncateIsPrefix(k.lower, |t.lower|);
      Sandwich(t.lower, k.lower, v);
    }
    if Le(v, k.upper) {
      CutUpper(k.upper, n + 2, v);
    }
  }

  /** Cutting an upper bound either does not matter to v, or leaves a start of v of the full length. */
  lemma {:induction false} CutUpper(u: Bytes, n: nat, v: Bytes)
    requires Le(v, u)
    ensures var c := u[..Min(|u|, n)]; Le(v, c) || (Prefix(c, v) && |c| == n)
  {
    var c := u[..Min(|u|, n)];
    if !Le(v, c) {
      AboveTheCut(v, u, |c|);
      assert |u| <= n ==> c == u;
    }
  }

  lemma {:induction false} CutIsOrdered(k: Key, cpf: nat)
    requires Ordered(k) && Cp(k) <= cpf
    ensures Ordered(Truncate(k, cpf))
  {
    TruncateKeepsCp(k, cpf);
    LeMeans(k.lower, k.upper);
    var t := Truncate(k, cpf);
    LeMeans(t.lower, t.upper);
  }

  lemma {:induction false} UnionIsOrdered(u: Key, e: Key)
    requires Ordered(u) && Ordered(e)
    ensures Ordered(BinUnion(u, e)) && BelowAndAbove(BinUnion(u, e), u) && BelowAndAbove(BinUnion(u, e), e)
  {
    var w := BinUnion(u, e);
    CmpFlips(u.lower, e.lower);
    CmpFlips(u.upper, e.upper);
    LeReflexive(u.lower);
    LeReflexive(e.lower);
    LeReflexive(u.upper);
    LeReflexive(e.upper);
    Sandwich(w.lower, u.lower, u.upper);
    Sandwich(w.lower, u.upper, w.upper);
  }

  lemma {:induction false} LeReflexive(a: Bytes)
    ensures Le(a, a)
  {
    CmpIsZero(a, a);
  }

  predicate BelowAndAbove(w: Key, k: Key) {
    Le(w.lower, k.lower) && Le(k.upper, w.upper)
  }

  /** A wider key will cover what the narrower one will. */
  lemma {:induction false} WiderWillCover(w: Key, k: Key, v: Bytes)
    requires Ordered(k) && BelowAndAbove(w, k) && WillCover(k, v)
    ensures WillCover(w, v)
  {
    assert Le(w.lower, v) by {
      Sandwich(w.lower, k.lower, v);
    }
    if Le(v, k.upper) {
      Sandwich(v, k.upper, w.upper);
    } else if !Le(v, w.upper) {
      var p := k.upper[..Cp(k) + 2];
      WiderCp(w, k);
      UpperExtends(k.upper, |p|, w.upper, v);
      ShorterPrefix(p, Cp(w) + 2, v);
      ShorterPrefix(p, Cp(w) + 2, w.upper);
    }
  }

  lemma {:induction false} ShorterPrefix(p: Bytes, n: nat, s: Bytes)
    requires Prefix(p, s) && n <= |p|
    ensures s[..n] == p[..n] && Prefix(s[..n], s)
  {
    assert s[..|p|][..n] == s[..n];
  }

  /** A larger bound that is still below v shares with v what the smaller bound shared. */
  lemma {:induction false} UpperExtends(u: Bytes, n: nat, w: Bytes, v: Bytes)
    requires n <= |u| && Prefix(u[..n], v) && Le(u, w) && !Le(v, w)
    ensures Prefix(u[..n], w)
  {
    TruncateIsPrefix(u, n);
    Sandwich(u[..n], u, w);
    CmpFlips(v, w);
    BetweenExtensions(u[..n], w, v);
  }

  /** A wider key has no longer a common prefix. */
  lemma {:induction false} WiderCp(w: Key, k: Key)
    requires Ordered(k) && BelowAndAbove(w, k)
    ensures Cp(w) <= Cp(k)
  {
    Sandwich(w.lower, k.lower, k.upper);
    Sandwich(w.lower, k.upper, w.upper);
  }

  // ----- gbt_var_union

  /** The running union of the entries, not yet cut. */
  function UnionOf(entries: seq<Key>): Key
    requires entries != []
  {
    if |entries| == 1 then entries[0] else BinUnion(UnionOf(entries[..|entries| - 1]), entries[|entries| - 1])
  }

  function VarUnion(entries: seq<Key>): Key
    requires entries != []
  {
    var u := UnionOf(entries);
    Truncate(u, Cp(u) + 1)
  }

  /** Entry i has the least lower bound of all and entry j the greatest upper bound. */
  ghost predicate Widest(entries: seq<Key>, i: nat, j: nat) {
    && i < |entries| && j < |entries|
    && forall k | 0 <= k < |entries| :: Le(entries[i].lower, entries[k].lower) && Le(entries[k].upper, entries[j].upper)
  }

  /** The bounds of the running union are bounds of entries. */
  lemma {:induction false} UnionOfWidest(entries: seq<Key>) returns (i: nat, j: nat)
    requires entries != []
    ensures Widest(entries, i, j) && UnionOf(entries) == Key(entries[i].lower, entries[j].upper)
  {
    var n := |entries| - 1;
    LeReflexive(entries[n].lower);
    LeReflexive(entries[n].upper);
    if n == 0 {
      i, j := 0, 0;
    } else {
      var front := entries[..n];
      i, j := UnionOfWidest(front);
      i, j := WidestStep(entries, i, j);
    }
  }

  lemma {:induction false} WidestStep(entries: seq<Key>, i: nat, j: nat) returns (i': nat, j': nat)
    requires |entries| > 1 && Widest(entries[..|entries| - 1], i, j)
    ensures Widest(entries, i', j')
    ensures BinUnion(Key(entries[i].lower, entries[j].upper), entries[|entries| - 1]) == Key(entries[i'].lower, entries[j'].upper)
  {
    var n := |entries| - 1;
    var front, e := entries[..n], entries[n];
    i' := if Cmp(entries[i].lower, e.lower) > 0 then n else i;
    j' := if Cmp(entries[j].upper, e.upper) < 0 then n else j;
    forall k | 0 <= k <= n ensures Le(entries[i'].lower, entries[k].lower) && Le(entries[k].upper, entries[j'].upper) {
      LeReflexive(e.lower);
      LeReflexive(e.upper);
      CmpFlips(entries[i].lower, e.lower);
      CmpFlips(entries[j].upper, e.upper);
      if k < n {
        assert front[k] == entries[k];
        Sandwich(entries[i'].lower, entries[i].lower, entries[k].lower);
        Sandwich(entries[k].upper, entries[j].upper, entries[j'].upper);
      }
    }
  }

  /** gbt_var_union: the least lower and the greatest upper bound, each cut two bytes past their common prefix. */
  method Union(entries: seq<Key>) returns (out: Key)
    requires entries != []
    ensures out == VarUnion(entries)
    ensures exists i: nat, j: nat | Widest(entries, i, j) ::
              var l, u := entries[i].lower, entries[j].upper;
              out.lower == l[..Min(|l|, CpLen(l, u) + 2)] && out.upper == u[..Min(|u|, CpLen(l, u) + 2)]
  {
    var i, j := UnionOfWidest(entries);
    out := CutUnion(entries);
    assert Widest(entries, i, j);
  }

  method CutUnion(entries: seq<Key>) returns (out: Key)
    requires entries != []
    ensures out == VarUnion(entries)
  {
    out := entries[0];
    assert entries[..1] == [entries[0]];
    for i := 1 to |entries|
      invariant out == UnionOf(entries[..i])
    {
      assert entries[..i + 1][..i] == entries[..i];
      out := BinUnion(out, entries[i]);
    }
    assert entries[..|entries|] == entries;
    var plen := NodeCpLen(out);
    out := Truncate(out, plen + 1);
  }

  lemma {:induction false} UnionOfOrdered(entries: seq<Key>)
    requires entries != [] && forall k | k in entries :: Ordered(k)
    ensures Ordered(UnionOf(entries))
  {
    if |entries| > 1 {
      UnionOfOrdered(entries[..|entries| - 1]);
      UnionIsOrdered(UnionOf(entries[..|entries| - 1]), entries[|entries| - 1]);
    }
  }

  /** The union's bounds enclose those of every entry. */
  lemma {:induction false} UnionOfEncloses(entries: seq<Key>, i: nat)
    requires (forall k | k in entries :: Ordered(k)) && i < |entries|
    ensures BelowAndAbove(UnionOf(entries), entries[i])
  {
    if |entries| == 1 {
      LeReflexive(entries[0].lower);
      LeReflexive(entries[0].upper);
    } else {
      var front, last := entries[..|entries| - 1], entries[|entries| - 1];
      var u := UnionOf(front);
      assert BelowAndAbove(UnionOf(entries), u) && BelowAndAbove(UnionOf(entries), last) by {
        UnionOfOrdered(front);
        UnionIsOrdered(u, last);
      }
      if i < |front| {
        UnionOfEncloses(front, i);
        EnclosesTransitive(UnionOf(entries), u, front[i]);
      }
    }
  }

  lemma {:induction false} EnclosesTransitive(a: Key, b: Key, c: Key)
    requires BelowAndAbove(a, b) && BelowAndAbove(b, c)
    ensures BelowAndAbove(a, c)
  {
    Sandwich(a.lower, b.lower, c.lower);
    Sandwich(c.upper, b.upper, a.upper);
  }

  /** Whatever one of the entries covers, the union will cover. */
  lemma {:induction false} UnionOfWillCover(entries: seq<Key>, i: nat, v: Bytes)
    requires (forall k | k in entries :: Ordered(k)) && i < |entries| && Covers(entries[i], v)
    ensures WillCover(UnionOf(entries), v)
  {
    UnionOfEncloses(entries, i);
    CoversWillCover(entries[i], v);
    WiderWillCover(UnionOf(entries), entries[i], v);
  }

  /** gbt_var_union loses nothing that an entry covers. */
  lemma {:induction false} VarUnionCovers(entries: seq<Key>, i: nat, v: Bytes)
    requires (forall k | k in entries :: Ordered(k)) && i < |entries| && Covers(entries[i], v)
    ensures Covers(VarUnion(entries), v)
  {
    UnionOfWillCover(entries, i, v);
    CutCovers(UnionOf(entries), v);
  }

  lemma {:induction false} VarUnionOrdered(entries: seq<Key>)
    requires entries != [] && forall k | k in entries :: Ordered(k)
    ensures Ordered(VarUnion(entries))
  {
    UnionOfOrdered(entries);
    CutIsOrdered(UnionOf(entries), Cp(UnionOf(entries)) + 1);
  }

  // ----- gbt_var_consistent

  datatype Strategy = LessEqual | Less | Equal | Greater | GreaterEqual | NotEqual

  /** What the operator says of a stored value and the query. */
  predicate Satisfies(v: Bytes, op: Strategy, q: Bytes) {
    match op
    case LessEqual => Le(v, q)
    case Less => Cmp(v, q) < 0
    case Equal => v == q
    case Greater => Cmp(v, q) > 0
    case GreaterEqual => Le(q, v)
    case NotEqual => v != q
  }

  predicate NodePfMatch(k: Key, q: Bytes) {
    Prefix(k.lower, q) || Prefix(k.upper, q)
  }

  predicate Consistent(k: Key, op: Strategy, q: Bytes, leaf: bool) {
    match op
    case LessEqual =>
      if leaf then Cmp(q, k.lower) >= 0 else Cmp(q, k.lower) >= 0 || NodePfMatch(k, q)
    case Less =>
      if leaf then Cmp(q, k.lower) > 0 else Cmp(q, k.lower) >= 0 || NodePfMatch(k, q)
    case Equal =>
      if leaf then q == k.lower
      else (Cmp(k.lower, q) <= 0 && Cmp(q, k.upper) <= 0) || NodePfMatch(k, q)
    case Greater =>
      if leaf then Cmp(q, k.upper) < 0 else Cmp(q, k.upper) <= 0 || NodePfMatch(k, q)
    case GreaterEqual =>
      if leaf then Cmp(q, k.upper) <= 0 else Cmp(q, k.upper) <= 0 || NodePfMatch(k, q)
    case NotEqual => !(q == k.lower && q == k.upper)
  }

  /** On a leaf the answer is exact. */
  lemma {:induction false} LeafIsExact(v: Bytes, op: Strategy, q: Bytes)
    ensures Consistent(Key(v, v), op, q, true) <==> Satisfies(v, op, q)
  {
    CmpFlips(v, q);
    CmpIsZero(v, q);
  }

  /** What the test on an inner key comes to: matching a prefix matters only where a lower bound of the value is asked for. */
  lemma {:induction false} InnerTests(k: Key, op: Strategy, q: Bytes)
    requires Ordered(k)
    ensures Consistent(k, op, q, false) <==>
              match op
              case LessEqual => Le(k.lower, q)
              case Less => Le(k.lower, q)
              case Equal => Le(k.lower, q) && (Le(q, k.upper) || Prefix(k.lower, q) || Prefix(k.upper, q))
              case Greater => Le(q, k.upper) || Prefix(k.lower, q) || Prefix(k.upper, q)
              case GreaterEqual => Le(q, k.upper) || Prefix(k.lower, q) || Prefix(k.upper, q)
              case NotEqual => k.lower != q || k.upper != q
  {
    CmpFlips(k.lower, q);
    PrefixMeans(k.lower, q);
    PrefixMeans(k.upper, q);
    if Prefix(k.upper, q) {
      Sandwich(k.lower, k.upper, q);
    }
  }

  /** An inner key that covers a satisfying value is consistent. */
  lemma {:induction false} InnerIsConsistent(k: Key, v: Bytes, op: Strategy, q: Bytes)
    requires Covers(k, v) && Satisfies(v, op, q)
    ensures Consistent(k, op, q, false)
  {
    match op
    case LessEqual =>
      UpwardConsistent(k, v, q);
    case Less =>
      UpwardConsistent(k, v, q);
    case Equal =>
    case Greater =>
      CmpFlips(v, q);
      DownwardConsistent(k, v, q);
    case GreaterEqual =>
      DownwardConsistent(k, v, q);
    case NotEqual =>
      if q == k.lower && q == k.upper {
        CpOfEqual(q);
        CmpFlips(v, q);
        CmpIsZero(v, q);
      }
  }

  lemma {:induction false} CpOfEqual(q: Bytes)
    ensures CpLen(q, q) == |q|
  {
    PartAt(q, q, |q|);
  }

  lemma {:induction false} UpwardConsistent(k: Key, v: Bytes, q: Bytes)
    requires Covers(k, v) && Le(v, q)
    ensures Cmp(q, k.lower) >= 0
  {
    Sandwich(k.lower, v, q);
    CmpFlips(k.lower, q);
  }

  lemma {:induction false} DownwardConsistent(k: Key, v: Bytes, q: Bytes)
    requires Covers(k, v) && Le(q, v)
    ensures Cmp(q, k.upper) <= 0 || NodePfMatch(k, q)
  {
    if Le(v, k.upper) {
      Sandwich(q, v, k.upper);
    } else if !Le(q, k.upper) {
      CmpFlips(q, k.upper);
      BetweenExtensions(k.upper, q, v);
    }
  }

  // ----- Any number of levels

  /** An index: stored values under pages keyed by a union, or by the cut union of a side of a split. */
  datatype Tree = Leaf(v: Bytes) | Page(kids: seq<Tree>) | SplitPage(kids: seq<Tree>, cpf: nat)

  predicate NoEmptyPage(t: Tree) {
    t.Leaf? || (t.kids != [] && forall k | k in t.kids :: NoEmptyPage(k))
  }

  function KeyOf(t: Tree): Key
    requires NoEmptyPage(t)
  {
    match t
    case Leaf(v) => Key(v, v)
    case Page(kids) => VarUnion(seq(|kids|, i requires 0 <= i < |kids| => KeyOf(kids[i])))
    case SplitPage(kids, cpf) => Truncate(UnionOf(seq(|kids|, i requires 0 <= i < |kids| => KeyOf(kids[i]))), cpf)
  }

  function KeysOf(kids: seq<Tree>): (keys: seq<Key>)
    requires forall k | k in kids :: NoEmptyPage(k)
    ensures |keys| == |kids| && forall i | 0 <= i < |kids| :: keys[i] == KeyOf(kids[i])
  {
    seq(|kids|, i requires 0 <= i < |kids| => KeyOf(kids[i]))
  }

  ghost predicate Below(v: Bytes, t: Tree) {
    match t
    case Leaf(w) => v == w
    case Page(kids) => exists k | k in kids :: Below(v, k)
    case SplitPage(kids, _) => exists k | k in kids :: Below(v, k)
  }

  /** Every split cuts past the common prefix of its side, and no entry of it is endangered. */
  ghost predicate WellSplit(t: Tree)
    requires NoEmptyPage(t)
  {
    && (!t.Leaf? ==> forall k | k in t.kids :: WellSplit(k))
    && (t.SplitPage? ==> Cp(UnionOf(KeysOf(t.kids))) < t.cpf && forall k | k in t.kids :: !Endangered(KeyOf(k), KeyOf(t).upper))
  }

  lemma {:induction false} KeyCovers(t: Tree, v: Bytes)
    requires NoEmptyPage(t) && WellSplit(t)
    ensures Ordered(KeyOf(t)) && (Below(v, t) ==> Covers(KeyOf(t), v))
    decreases t
  {
    if t.Leaf? {
      LeReflexive(t.v);
    } else {
      var keys := KeysOf(t.kids);
      forall i | 0 <= i < |keys| ensures Ordered(keys[i]) && (Below(v, t.kids[i]) ==> Covers(keys[i], v)) {
        KeyCovers(t.kids[i], v);
      }
      PageOrdered(t, keys);
      if Below(v, t) {
        var i :| 0 <= i < |t.kids| && Below(v, t.kids[i]);
        PageCovers(t, keys, i, v);
      }
    }
  }

  lemma {:induction false} PageOrdered(t: Tree, keys: seq<Key>)
    requires NoEmptyPage(t) && !t.Leaf? && keys == KeysOf(t.kids) && forall i | 0 <= i < |keys| :: Ordered(keys[i])
    requires t.SplitPage? ==> Cp(UnionOf(keys)) < t.cpf
    ensures Ordered(KeyOf(t))
  {
    if t.Page? {
      VarUnionOrdered(keys);
    } else {
      UnionOfOrdered(keys);
      CutIsOrdered(UnionOf(keys), t.cpf);
    }
  }

  lemma {:induction false} PageCovers(t: Tree, keys: seq<Key>, i: nat, v: Bytes)
    requires NoEmptyPage(t) && !t.Leaf? && keys == KeysOf(t.kids) && i < |keys| && forall j | 0 <= j < |keys| :: Ordered(keys[j])
    requires t.SplitPage? ==> Cp(UnionOf(keys)) < t.cpf && !Endangered(keys[i], KeyOf(t).upper)
    requires Covers(keys[i], v)
    ensures Covers(KeyOf(t), v)
  {
    if t.Page? {
      VarUnionCovers(keys, i, v);
    } else {
      UnionOfEncloses(keys, i);
      SplitKeepsCoverExactly(UnionOf(keys), t.cpf, keys[i]);
    }
  }

  /** A split of stored values is always well made. */
  lemma {:induction false} LeavesWellSplit(kids: seq<Tree>, cpf: nat)
    requires kids != [] && (forall k | k in kids :: k.Leaf?) && Cp(UnionOf(KeysOf(kids))) < cpf
    ensures WellSplit(SplitPage(kids, cpf))
  {
    var t := SplitPage(kids, cpf);
    forall k | k in kids ensures !Endangered(KeyOf(k), KeyOf(t).upper) {
      StoredValueNotEndangered(k.v, KeyOf(t).upper);
    }
  }

  /** No search loses an answer: if a stored value satisfies the operator, every page above it is consistent. */
  lemma {:induction false} SearchLosesNothing(t: Tree, v: Bytes, op: Strategy, q: Bytes)
    requires NoEmptyPage(t) && WellSplit(t) && Below(v, t) && Satisfies(v, op, q)
    ensures Consistent(KeyOf(t), op, q, false)
  {
    KeyCovers(t, v);
    InnerIsConsistent(KeyOf(t), v, op, q);
  }

  // ----- gbt_var_picksplit

  datatype Split = Split(left: seq<nat>, right: seq<nat>, ldatum: Key, rdatum: Key)

  /** The order that qsort leaves: some permutation of the offsets, sorted by bounds. */
  ghost predicate IsOrder(order: seq<nat>, entries: seq<Key>) {
    && |order| == |entries|
    && (forall i | 0 <= i < |order| :: order[i] < |entries|)
    && (forall i, j | 0 <= i < j < |order| :: order[i] != order[j])
    && (forall i, j | 0 <= i < j < |order| :: KeyLe(entries[order[i]], entries[order[j]]))
  }

  predicate KeyLe(a: Key, b: Key) {
    var c := Cmp(a.lower, b.lower);
    if c == 0 then Cmp(a.upper, b.upper) <= 0 else c < 0
  }

  function Pick(entries: seq<Key>, offsets: seq<nat>): (s: seq<Key>)
    requires Offsets(offsets, |entries|)
    ensures |s| == |offsets| && forall i | 0 <= i < |s| :: s[i] == entries[offsets[i]]
  {
    seq(|offsets|, i requires 0 <= i < |offsets| => entries[offsets[i]])
  }

  ghost predicate Offsets(offsets: seq<nat>, n: nat) {
    forall i | 0 <= i < |offsets| :: offsets[i] < n
  }

  /** The keys of two sides: the unions of both, cut at the larger common prefix. */
  function SidesOf(entries: seq<Key>, left: seq<nat>, right: seq<nat>): Split
    requires left != [] && right != [] && Offsets(left, |entries|) && Offsets(right, |entries|)
  {
    var l, r := UnionOf(Pick(entries, left)), UnionOf(Pick(entries, right));
    var cut := Max(Cp(l), Cp(r)) + 1;
    Split(left, right, Truncate(l, cut), Truncate(r, cut))
  }

  /** The split that an order of the entries gives, in halves. */
  function SplitOf(entries: seq<Key>, order: seq<nat>): Split
    requires |order| >= 2 && Offsets(order, |entries|)
  {
    SidesOf(entries, order[..|order| / 2], order[|order| / 2..])
  }

  /** Both keys are cut two bytes past the longer of their common prefixes. */
  predicate TwiceCut(v: Split, l: Key, r: Key) {
    var n := Max(Cp(l), Cp(r)) + 2;
    && v.ldatum == Key(l.lower[..Min(|l.lower|, n)], l.upper[..Min(|l.upper|, n)])
    && v.rdatum == Key(r.lower[..Min(|r.lower|, n)], r.upper[..Min(|r.upper|, n)])
  }

  method PickSplit(entries: seq<Key>, order: seq<nat>) returns (v: Split)
    requires |entries| >= 2 && |order| == |entries| && Offsets(order, |entries|)
    ensures v == SplitOf(entries, order)
    ensures v.left != [] && v.right != [] && v.left + v.right == order && |v.left| == |order| / 2
    ensures TwiceCut(v, UnionOf(Pick(entries, v.left)), UnionOf(Pick(entries, v.right)))
  {
    var half := |order| / 2;
    assert order[..half] + order[half..] == order;
    v := Sides(entries, order[..half], order[half..]);
  }

  method Sides(entries: seq<Key>, left: seq<nat>, right: seq<nat>) returns (v: Split)
    requires left != [] && right != [] && Offsets(left, |entries|) && Offsets(right, |entries|)
    ensures v == SidesOf(entries, left, right) && v.left == left && v.right == right
    ensures TwiceCut(v, UnionOf(Pick(entries, left)), UnionOf(Pick(entries, right)))
  {
    var l, ll := SideKey(entries, left);
    var r, lr := SideKey(entries, right);
    var cut := Max(ll, lr) + 1;
    v := Split(left, right, Truncate(l, cut), Truncate(r, cut));
  }

  method SideKey(entries: seq<Key>, offsets: seq<nat>) returns (u: Key, cp: nat)
    requires offsets != [] && Offsets(offsets, |entries|)
    ensures u == UnionOf(Pick(entries, offsets)) && cp == Cp(u)
  {
    u := RunningUnion(entries, offsets);
    cp := NodeCpLen(u);
  }

  method RunningUnion(entries: seq<Key>, offsets: seq<nat>) returns (u: Key)
    requires offsets != [] && Offsets(offsets, |entries|)
    ensures u == UnionOf(Pick(entries, offsets))
  {
    ghost var picked := Pick(entries, offsets);
    u := entries[offsets[0]];
    assert picked[..1] == [u];
    for i := 1 to |offsets|
      invariant u == UnionOf(picked[..i])
    {
      u := ExtendUnion(u, entries[offsets[i]], picked, i);
    }
    assert picked[..|offsets|] == picked;
  }

  method ExtendUnion(u: Key, e: Key, ghost keys: seq<Key>, ghost i: nat) returns (w: Key)
    requires 0 < i < |keys| && u == UnionOf(keys[..i]) && e == keys[i]
    ensures w == UnionOf(keys[..i + 1])
  {
    assert keys[..i + 1][..i] == keys[..i];
    w := BinUnion(u, e);
  }

  /** An entry that was cut before, and whose upper bound the side's bound continues with something other than 255s. */
  predicate Endangered(e: Key, upper: Bytes) {
    && |e.upper| >= Cp(e) + 2 && Prefix(e.upper, upper)
    && exists i | |e.upper| <= i < |upper| :: upper[i] != 255
  }

  lemma {:induction false} LowerKept(u: Key, cpf: nat, e: Key, v: Bytes)
    requires BelowAndAbove(u, e) && Le(e.lower, v)
    ensures Le(Truncate(u, cpf).lower, v)
  {
    var l := Truncate(u, cpf).lower;
    TruncateIsPrefix(u.lower, |l|);
    Sandwich(l, u.lower, e.lower);
    Sandwich(l, e.lower, v);
  }

  lemma {:induction false} UpperKept(u: Bytes, n: nat, e: Bytes, v: Bytes)
    requires Le(v, e) && Le(e, u)
    ensures var c := u[..Min(|u|, n)]; Le(v, c) || (Prefix(c, v) && |c| == n)
  {
    Sandwich(v, e, u);
    CutUpper(u, n, v);
  }

  /** Splitting whole stored values loses nothing. */
  lemma {:induction false} WholeEntryKept(u: Key, cpf: nat, e: Key, v: Bytes)
    requires Ordered(e) && BelowAndAbove(u, e) && Cp(u) < cpf && Covers(e, v) && Le(v, e.upper)
    ensures Covers(Truncate(u, cpf), v)
  {
    TruncateKeepsCp(u, cpf);
    LowerKept(u, cpf, e, v);
    UpperKept(u.upper, cpf + 1, e.upper, v);
  }

  /** A value that continues an entry's cut bound is kept unless the entry is endangered. */
  lemma {:induction false} CutEntryKept(u: Key, cpf: nat, e: Key, v: Bytes)
    requires Ordered(e) && BelowAndAbove(u, e) && Cp(u) < cpf && Covers(e, v) && !Le(v, e.upper)
    requires !Endangered(e, Truncate(u, cpf).upper)
    ensures Covers(Truncate(u, cpf), v)
  {
    var t := Truncate(u, cpf);
    TruncateKeepsCp(u, cpf);
    LowerKept(u, cpf, e, v);
    if Le(v, u.upper) {
      CutUpper(u.upper, cpf + 1, v);
    } else {
      assert Prefix(t.upper, v) by {
        PastBothBounds(u, cpf, e, v);
      }
      assert |t.upper| >= Cp(t) + 2 by {
        WiderCp(u, e);
        assert |u.upper| >= |e.upper| by {
          assert e.upper[..|e.upper|] == e.upper;
          UpperExtends(e.upper, |e.upper|, u.upper, v);
        }
      }
    }
  }

  /** A value past an entry's cut bound and past the side's bound still starts with the side's cut bound. */
  lemma {:induction false} PastBothBounds(u: Key, cpf: nat, e: Key, v: Bytes)
    requires Le(e.upper, u.upper) && Prefix(e.upper, v) && !Le(v, u.upper) && |e.upper| >= Cp(e) + 2
    requires !Endangered(e, Truncate(u, cpf).upper)
    ensures Prefix(Truncate(u, cpf).upper, v)
  {
    var t := Truncate(u, cpf);
    assert e.upper[..|e.upper|] == e.upper;
    UpperExtends(e.upper, |e.upper|, u.upper, v);
    if |t.upper| <= |e.upper| {
      ShorterPrefix(e.upper, |t.upper|, v);
      ShorterPrefix(e.upper, |t.upper|, u.upper);
    } else {
      assert Prefix(e.upper, t.upper) by {
        ShorterPrefix(u.upper, |e.upper|, u.upper);
        assert t.upper[..|e.upper|] == u.upper[..|e.upper|];
      }
      AboveAllOnes(e.upper, t.upper, u.upper, v);
    }
  }

  /** Nothing lies above a string that ends in 255s but what continues it. */
  lemma {:induction false} AboveAllOnes(p: Bytes, t: Bytes, u: Bytes, v: Bytes)
    requires Prefix(p, t) && Prefix(p, v) && Prefix(t, u) && !Le(v, u)
    requires forall i | |p| <= i < |t| :: t[i] == 255
    ensures Prefix(t, v)
  {
    PrefixMeans(t, u);
    CmpFlips(v, u);
    Sandwich(t, u, v);
    CommonAtLeast(p, t, v);
    LeMeans(t, v);
    PrefixMeans(t, v);
  }

  lemma {:induction false} CommonAtLeast(p: Bytes, a: Bytes, b: Bytes)
    requires Prefix(p, a) && Prefix(p, b)
    ensures |p| <= CpLen(a, b)
  {
    if p != [] {
      assert a[0] == a[..|p|][0] && b[0] == b[..|p|][0];
      assert a[1..][..|p| - 1] == a[..|p|][1..] && b[1..][..|p| - 1] == b[..|p|][1..];
      CommonAtLeast(p[1..], a[1..], b[1..]);
    }
  }

  /** A value that an endangered entry covers and the side's key does not. */
  lemma {:induction false} EndangeredIsLost(u: Key, cpf: nat, e: Key) returns (v: Bytes)
    requires Ordered(e) && Endangered(e, Truncate(u, cpf).upper)
    ensures Covers(e, v) && !Covers(Truncate(u, cpf), v)
  {
    var t := Truncate(u, cpf).upper;
    var i :| |e.upper| <= i < |t| && t[i] != 255;
    v := Successor(t, i);
    assert Prefix(e.upper, v) by {
      assert v[..|e.upper|] == v[..i][..|e.upper|] == t[..|e.upper|];
    }
    PrefixMeans(e.upper, v);
    Sandwich(e.lower, e.upper, v);
    PrefixMeans(t, v);
  }

  /** The side covers all that the entry covers, so that unions above it lose nothing either. */
  ghost predicate KeepsCover(e: Key, side: Key) {
    forall v :: Covers(e, v) ==> Covers(side, v)
  }

  /** No search for a value that the entry covers passes the side by. */
  ghost predicate KeepsAnswers(e: Key, side: Key) {
    forall v, op, q :: Covers(e, v) && Satisfies(v, op, q) ==> Consistent(side, op, q, false)
  }

  /**
    A side of a split covers everything that its entries cover if and only if
    no entry is endangered. Entries that were never cut are never endangered.
   */
  lemma {:induction false} SplitKeepsCoverExactly(u: Key, cpf: nat, e: Key)
    requires Ordered(e) && BelowAndAbove(u, e) && Cp(u) < cpf
    ensures KeepsCover(e, Truncate(u, cpf)) <==> !Endangered(e, Truncate(u, cpf).upper)
  {
    if Endangered(e, Truncate(u, cpf).upper) {
      var v := EndangeredIsLost(u, cpf, e);
    } else {
      forall v | Covers(e, v) ensures Covers(Truncate(u, cpf), v) {
        if Le(v, e.upper) {
          WholeEntryKept(u, cpf, e, v);
        } else {
          CutEntryKept(u, cpf, e, v);
        }
      }
    }
  }

  /** If the side's lower bound starts its upper one, it also starts every value that a cut entry covers past its bound. */
  lemma {:induction false} LowerStartsValue(u: Key, cpf: nat, e: Key, v: Bytes)
    requires Ordered(e) && BelowAndAbove(u, e) && Cp(u) < cpf && Covers(e, v) && !Le(v, e.upper)
    requires Endangered(e, Truncate(u, cpf).upper) && Prefix(Truncate(u, cpf).lower, Truncate(u, cpf).upper)
    ensures Prefix(Truncate(u, cpf).lower, v)
  {
    var t := Truncate(u, cpf);
    TruncateKeepsCp(u, cpf);
    WiderCp(u, e);
    PrefixMeans(t.lower, t.upper);
    var n := |t.lower|;
    assert t.lower == t.upper[..n] == t.upper[..|e.upper|][..n] == e.upper[..n];
    ShorterPrefix(e.upper, n, v);
  }

  lemma {:induction false} PrefixKeepsAnswer(u: Key, cpf: nat, e: Key, v: Bytes, op: Strategy, q: Bytes)
    requires Ordered(e) && BelowAndAbove(u, e) && Cp(u) < cpf && Covers(e, v) && !Le(v, e.upper) && Satisfies(v, op, q)
    requires Endangered(e, Truncate(u, cpf).upper) && Prefix(Truncate(u, cpf).lower, Truncate(u, cpf).upper)
    ensures Consistent(Truncate(u, cpf), op, q, false)
  {
    var t := Truncate(u, cpf);
    LowerStartsValue(u, cpf, e, v);
    PrefixMeans(t.lower, v);
    match op
    case LessEqual =>
      Sandwich(t.lower, v, q);
      CmpFlips(t.lower, q);
    case Less =>
      Sandwich(t.lower, v, q);
      CmpFlips(t.lower, q);
    case Equal =>
    case Greater =>
      CmpFlips(v, q);
      BelowPrefixed(t, v, q);
    case GreaterEqual =>
      BelowPrefixed(t, v, q);
    case NotEqual =>
      if q == t.lower && q == t.upper {
        CpOfEqual(q);
        TruncateKeepsCp(u, cpf);
        WiderCp(u, e);
        assert false;
      }
  }

  lemma {:induction false} BelowPrefixed(t: Key, v: Bytes, q: Bytes)
    requires Prefix(t.lower, t.upper) && Prefix(t.lower, v) && Le(q, v)
    ensures Cmp(q, t.upper) <= 0 || NodePfMatch(t, q)
  {
    if !Le(q, t.upper) {
      CmpFlips(q, t.upper);
      PrefixMeans(t.lower, t.upper);
      Sandwich(t.lower, t.upper, q);
      BetweenExtensions(t.lower, q, v);
    }
  }

  /** The value an endangered entry loses cannot be found by searching for it, unless the side's lower bound starts its upper one. */
  lemma {:induction false} EndangeredIsNotFound(u: Key, cpf: nat, e: Key) returns (v: Bytes)
    requires Ordered(e) && BelowAndAbove(u, e) && Cp(u) < cpf
    requires Endangered(e, Truncate(u, cpf).upper) && !Prefix(Truncate(u, cpf).lower, Truncate(u, cpf).upper)
    ensures Covers(e, v) && !Consistent(Truncate(u, cpf), Equal, v, false)
  {
    var t := Truncate(u, cpf);
    var i :| |e.upper| <= i < |t.upper| && t.upper[i] != 255;
    v := Successor(t.upper, i);
    assert Prefix(e.upper, v) by {
      assert v[..|e.upper|] == v[..i][..|e.upper|] == t.upper[..|e.upper|];
    }
    assert Covers(e, v) by {
      PrefixMeans(e.upper, v);
      Sandwich(e.lower, e.upper, v);
    }
    assert !Prefix(t.lower, v) by {
      TruncateKeepsCp(u, cpf);
      WiderCp(u, e);
      NotStarted(t, v, i);
    }
    PrefixMeans(t.upper, v);
  }

  /** A string right above t that agrees with it up to i. */
  lemma {:induction false} Successor(t: Bytes, i: nat) returns (v: Bytes)
    requires i < |t| && t[i] != 255
    ensures |v| == i + 1 && v[..i] == t[..i] && CpLen(v, t) == i == CpLen(t, v) && !Le(v, t)
  {
    v := t[..i] + [t[i] + 1];
    assert v[..i] == t[..i];
    PartAt(v, t, i);
    PartAt(t, v, i);
  }

  lemma {:induction false} NotStarted(t: Key, v: Bytes, i: nat)
    requires !Prefix(t.lower, t.upper) && Cp(t) + 1 < i < |t.upper| && i <= |v| && v[..i] == t.upper[..i]
    ensures !Prefix(t.lower, v)
  {
    var n := Cp(t);
    assert n < |t.lower| by {
      if n == |t.lower| {
        PrefixMeans(t.lower, t.upper);
      }
    }
    assert v[n] == v[..i][n] == t.upper[n] != t.lower[n];
  }

  /**
    A side of a split loses no answer of an entry if and only if the entry is not
    endangered, or the side's lower bound starts its upper one and so matches
    every query near it.
   */
  lemma {:induction false} SplitKeepsAnswersExactly(u: Key, cpf: nat, e: Key)
    requires Ordered(e) && BelowAndAbove(u, e) && Cp(u) < cpf
    ensures var side := Truncate(u, cpf);
            KeepsAnswers(e, side) <==> !Endangered(e, side.upper) || Prefix(side.lower, side.upper)
  {
    var side := Truncate(u, cpf);
    SplitKeepsCoverExactly(u, cpf, e);
    if Endangered(e, side.upper) && !Prefix(side.lower, side.upper) {
      var v := EndangeredIsNotFound(u, cpf, e);
      assert Satisfies(v, Equal, v);
    } else {
      forall v, op, q | Covers(e, v) && Satisfies(v, op, q) ensures Consistent(side, op, q, false) {
        if !Endangered(e, side.upper) {
          InnerIsConsistent(side, v, op, q);
        } else if Le(v, e.upper) {
          WholeEntryKept(u, cpf, e, v);
          InnerIsConsistent(side, v, op, q);
        } else {
          PrefixKeepsAnswer(u, cpf, e, v, op, q);
        }
      }
    }
  }

  lemma {:induction false} StoredValueNotEndangered(v: Bytes, upper: Bytes)
    ensures !Endangered(Key(v, v), upper)
  {
    CpOfEqual(v);
  }

  /** Each entry of a split, on the side it went to: when no answer of it is lost, and when nothing it covers is. */
  lemma {:induction false} PickSplitKeepsExactly(entries: seq<Key>, offsets: seq<nat>, cpf: nat, i: nat)
    requires Offsets(offsets, |entries|) && i < |offsets| && (forall k | k in entries :: Ordered(k))
    requires Cp(UnionOf(Pick(entries, offsets))) < cpf
    ensures var e, side := entries[offsets[i]], Truncate(UnionOf(Pick(entries, offsets)), cpf);
            && (KeepsAnswers(e, side) <==> !Endangered(e, side.upper) || Prefix(side.lower, side.upper))
            && (KeepsCover(e, side) <==> !Endangered(e, side.upper))
  {
    var picked := Pick(entries, offsets);
    forall k | k in picked ensures Ordered(k) {
      var j :| 0 <= j < |picked| && picked[j] == k;
      assert entries[offsets[j]] in entries;
    }
    UnionOfEncloses(picked, i);
    SplitKeepsAnswersExactly(UnionOf(picked), cpf, picked[i]);
    SplitKeepsCoverExactly(UnionOf(picked), cpf, picked[i]);
  }

  const CUT: Key := Key([1], [2, 5])
  const LONG: Key := Key([2, 5, 1], [2, 5, 1])
  const FAR: Key := Key([3, 3], [3, 3])
  const LOST: Bytes := [2, 5, 9]

  lemma {:induction false} ExampleOrder()
    ensures IsOrder([0, 1, 2, 3], [CUT, LONG, FAR, FAR])
  {
    PartAt(CUT.lower, LONG.lower, 0);
    PartAt(CUT.lower, FAR.lower, 0);
    PartAt(LONG.lower, FAR.lower, 0);
    CmpIsZero(FAR.lower, FAR.lower);
  }

  lemma {:induction false} ExampleUnions()
    ensures UnionOf([CUT, LONG]) == Key([1], [2, 5, 1]) && UnionOf([FAR, FAR]) == FAR
    ensures Cp(Key([1], [2, 5, 1])) == 0 && Cp(FAR) == 2
  {
    assert [CUT, LONG][..1] == [CUT] && [FAR, FAR][..1] == [FAR];
    assert UnionOf([CUT]) == CUT && UnionOf([FAR]) == FAR;
    PartAt(CUT.lower, LONG.lower, 0);
    PartAt(CUT.upper, LONG.upper, 2);
    CmpIsZero(FAR.lower, FAR.lower);
    PartAt([1], [2, 5, 1], 0);
    CpOfEqual([3, 3]);
  }

  lemma {:induction false} ExampleLost()
    ensures Covers(CUT, LOST) && !Consistent(Key([1], [2, 5, 1]), Equal, LOST, false)
  {
    assert LOST[..2] == [2, 5];
    PartAt(CUT.lower, LOST, 0);
    PartAt(CUT.lower, CUT.upper, 0);
    PartAt(LOST, [2, 5, 1], 2);
    assert LOST[2] == 9 && [2, 5, 1][2] == 1;
  }

  lemma {:induction false} ExampleSplit()
    ensures SplitOf([CUT, LONG, FAR, FAR], [0, 1, 2, 3]).left == [0, 1]
    ensures SplitOf([CUT, LONG, FAR, FAR], [0, 1, 2, 3]).ldatum == Key([1], [2, 5, 1])
  {
    var entries, order: seq<nat> := [CUT, LONG, FAR, FAR], [0, 1, 2, 3];
    assert order[..2] == [0, 1] && order[2..] == [2, 3];
    assert Pick(entries, [0, 1]) == [CUT, LONG];
    assert Pick(entries, [2, 3]) == [FAR, FAR];
    ExampleUnions();
    assert Truncate(Key([1], [2, 5, 1]), 3) == Key([1], [2, 5, 1]);
  }

  /** The page below the first entry: its stored values give the cut key. */
  const BELOW: Tree := Page([Leaf([1]), Leaf([2, 5, 9])])

  lemma {:induction false} ExamplePage()
    ensures NoEmptyPage(BELOW) && KeyOf(BELOW) == CUT && Below(LOST, BELOW)
  {
    var keys := [Key([1], [1]), Key(LOST, LOST)];
    assert BELOW.kids[1] in BELOW.kids && Below(LOST, BELOW.kids[1]);
    assert seq(2, i requires 0 <= i < 2 => KeyOf(BELOW.kids[i])) == keys;
    assert keys[..1] == [keys[0]];
    PartAt([1], LOST, 0);
    assert UnionOf(keys) == Key([1], LOST);
    assert LOST[..2] == [2, 5] && [1][..1] == [1];
  }

  /**
    A split of cut keys that loses an answer: the first entry is the key of a
    page that holds the value [2, 5, 9], the left key is cut too late because the
    right side has a longer common prefix, and a search for the value no longer
    descends to the left.
   */
  lemma {:induction false} SplitLosesAnAnswer()
    ensures IsOrder([0, 1, 2, 3], [CUT, LONG, FAR, FAR])
    ensures NoEmptyPage(BELOW) && KeyOf(BELOW) == CUT && Below(LOST, BELOW)
    ensures 0 in SplitOf([CUT, LONG, FAR, FAR], [0, 1, 2, 3]).left
    ensures !Consistent(SplitOf([CUT, LONG, FAR, FAR], [0, 1, 2, 3]).ldatum, Equal, LOST, false)
  {
    ExampleOrder();
    ExamplePage();
    ExampleSplit();
    ExampleLost();
  }
}
