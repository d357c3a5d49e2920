/**
  The signature index on integer arrays, contrib/intarray/_intbig_gist.c: the
  signature of an array and the consistency tests, boolean search included.
 */
module IntIndex {
  import BoolQuery
  import BoolEval
  import BoolIndex
  import opened Signature
  import opened SignSearch

  const SIGLEN: nat := 252

  /** HASHVAL: the value as an unsigned int, modulo the number of bits. */
  function Slot(v: int): (i: nat)
    ensures i < 8 * SIGLEN
  {
    v % 0x1_0000_0000 % (8 * SIGLEN)
  }

  /** Small values have bits of their own, values as far apart as there are bits share one, and a value shares with its unsigned form. */
  lemma {:induction false} SlotRepeats(v: int)
    ensures 0 <= v < 8 * SIGLEN ==> Slot(v) == v
    ensures 0 <= v < 0x1_0000_0000 - 8 * SIGLEN ==> Slot(v + 8 * SIGLEN) == Slot(v)
    ensures Slot(v) == Slot(v + 0x1_0000_0000)
  {
    assert (v + 0x1_0000_0000) % 0x1_0000_0000 == v % 0x1_0000_0000;
  }

  /** The bits of the members of an array. */
  ghost function RowBits(a: seq<int>): set<nat> {
    set i | 0 <= i < |a| :: Slot(a[i])
  }

  lemma {:induction false} RowBitsStep(a: seq<int>, i: nat)
    requires i < |a|
    ensures RowBits(a[..i + 1]) == RowBits(a[..i]) + {Slot(a[i])}
  {
    var b, c := a[..i], a[..i + 1];
    forall x ensures x in RowBits(c) <==> x in RowBits(b) + {Slot(a[i])} {
      if x in RowBits(c) {
        var j :| 0 <= j < |c| && Slot(c[j]) == x;
        assert j < i ==> Slot(b[j]) == x;
      }
      if x in RowBits(b) {
        var j :| 0 <= j < |b| && Slot(b[j]) == x;
        assert Slot(c[j]) == x;
      }
      if x == Slot(a[i]) {
        assert Slot(c[i]) == x;
      }
    }
  }

  /** Hashing every member into a vector of zeros: the leaf branch of g_intbig_compress, and the query on a leaf. */
  method HashAll(a: seq<int>) returns (sign: seq<bv8>)
    ensures |sign| == SIGLEN && BitsOf(sign) == RowBits(a)
  {
    var bits := new bv8[SIGLEN](_ => 0);
    BitsOfConstant(bits[..], 0);
    for i := 0 to |a|
      invariant BitsOf(bits[..]) == RowBits(a[..i])
    {
      RowBitsStep(a, i);
      SetBit(bits, Slot(a[i]));
    }
    assert a[..|a|] == a;
    sign := bits[..];
  }

  /** _intbig_overlap. */
  method Overlap(sign: seq<bv8>, b: seq<int>) returns (res: bool)
    requires |sign| == SIGLEN
    ensures res <==> BitsOf(sign) * RowBits(b) != {}
  {
    for i := 0 to |b|
      invariant forall j | 0 <= j < i :: Slot(b[j]) !in BitsOf(sign)
    {
      BitIn(sign, Slot(b[i]));
      if GetBit(sign, Slot(b[i])) {
        assert Slot(b[i]) in BitsOf(sign) * RowBits(b);
        return true;
      }
    }
    res := false;
  }

  /** _intbig_contains. */
  method ContainsAll(sign: seq<bv8>, b: seq<int>) returns (res: bool)
    requires |sign| == SIGLEN
    ensures res <==> RowBits(b) <= BitsOf(sign)
  {
    for i := 0 to |b|
      invariant forall j | 0 <= j < i :: Slot(b[j]) in BitsOf(sign)
    {
      BitIn(sign, Slot(b[i]));
      if !GetBit(sign, Slot(b[i])) {
        assert Slot(b[i]) in RowBits(b);
        return false;
      }
    }
    res := true;
  }

  /** The byte loops on a leaf: equal vectors, or no bit of the leaf outside the query. */
  method CompareBytes(de: seq<bv8>, dq: seq<bv8>, same: bool) returns (res: bool)
    requires |de| == |dq|
    ensures res <==> if same then de == dq else BitsOf(de) <= BitsOf(dq)
  {
    for i := 0 to |de|
      invariant same ==> de[..i] == dq[..i]
      invariant !same ==> forall j | 0 <= j < i :: de[j] & !dq[j] == 0
    {
      if same {
        if de[i] != dq[i] {
          return false;
        }
      } else if de[i] & !dq[i] != 0 {
        StrayBit(de, dq, i);
        return false;
      }
    }
    if !same {
      NoStrayBits(de, dq);
    }
    res := true;
  }

  lemma {:induction false} ByteBit(a: bv8, b: bv8, k: nat)
    requires k < 8 && a & !b == 0 && Bit(a, k)
    ensures Bit(b, k)
  {
  }

  lemma {:induction false} SomeBit(a: bv8, b: bv8) returns (k: nat)
    requires a & !b != 0
    ensures k < 8 && Bit(a, k) && !Bit(b, k)
  {
    k := if Bit(a, 0) && !Bit(b, 0) then 0 else if Bit(a, 1) && !Bit(b, 1) then 1
         else if Bit(a, 2) && !Bit(b, 2) then 2 else if Bit(a, 3) && !Bit(b, 3) then 3
         else if Bit(a, 4) && !Bit(b, 4) then 4 else if Bit(a, 5) && !Bit(b, 5) then 5
         else if Bit(a, 6) && !Bit(b, 6) then 6 else 7;
  }

  lemma {:induction false} StrayBit(de: seq<bv8>, dq: seq<bv8>, i: nat)
    requires |de| == |dq| && i < |de| && de[i] & !dq[i] != 0
    ensures !(BitsOf(de) <= BitsOf(dq))
  {
    var k := SomeBit(de[i], dq[i]);
    var n := 8 * i + k;
    assert n / 8 == i && n % 8 == k;
    BitIn(de, n);
    BitIn(dq, n);
  }

  lemma {:induction false} NoStrayBits(de: seq<bv8>, dq: seq<bv8>)
    requires |de| == |dq| && forall j | 0 <= j < |de| :: de[j] & !dq[j] == 0
    ensures BitsOf(de) <= BitsOf(dq)
  {
    forall n | n in BitsOf(de) ensures n in BitsOf(dq) {
      ByteBit(de[n / 8], dq[n / 8], n % 8);
    }
  }

  // ----- Queries

  datatype Query =
    | Overlaps(b: seq<int>)
    | Same(b: seq<int>)
    | Contains(b: seq<int>)
    | ContainedBy(b: seq<int>)

  ghost function Members(a: seq<int>): set<int> {
    set x | x in a
  }

  /** The operator on a row. */
  ghost predicate Satisfies(a: seq<int>, q: Query) {
    match q
    case Overlaps(b) => Members(a) * Members(b) != {}
    case Same(b) => Members(a) == Members(b)
    case Contains(b) => Members(b) <= Members(a)
    case ContainedBy(b) => Members(a) <= Members(b)
  }

  ghost predicate Passes(k: Key, q: Query, leaf: bool) {
    var bits := KeyBits(k, SIGLEN);
    || k.AllTrue?
    || match q
       case Overlaps(b) => bits * RowBits(b) != {}
       case Same(b) => if leaf then bits == RowBits(b) else RowBits(b) <= bits
       case Contains(b) => RowBits(b) <= bits
       case ContainedBy(b) => if leaf then bits <= RowBits(b) else bits * RowBits(b) != {}
  }

  /** g_intbig_consistent, for the strategies on arrays. */
  method Consistent(k: Key, q: Query, leaf: bool) returns (res: bool)
    requires OfLen(k, SIGLEN)
    ensures res <==> Passes(k, q, leaf)
  {
    if k.AllTrue? {
      return true;
    }
    match q {
      case Overlaps(b) =>
        res := Overlap(k.sign, b);
      case Contains(b) =>
        res := ContainsAll(k.sign, b);
      case Same(b) =>
        if leaf {
          var qp := HashAll(b);
          res := CompareBytes(k.sign, qp, true);
          SameBits(k.sign, qp);
        } else {
          res := ContainsAll(k.sign, b);
        }
      case ContainedBy(b) =>
        if leaf {
          var qp := HashAll(b);
          res := CompareBytes(k.sign, qp, false);
        } else {
          res := Overlap(k.sign, b);
        }
    }
  }

  /** A vector is its bits. */
  lemma {:induction false} SameBits(a: seq<bv8>, b: seq<bv8>)
    requires |a| == |b|
    ensures BitsOf(a) == BitsOf(b) <==> a == b
  {
    if BitsOf(a) == BitsOf(b) {
      forall i | 0 <= i < |a| ensures a[i] == b[i] {
        forall k: nat | k < 8 ensures Bit(a[i], k) == Bit(b[i], k) {
          var n := 8 * i + k;
          assert n / 8 == i && n % 8 == k;
          BitIn(a, n);
          BitIn(b, n);
        }
        SameByte(a[i], b[i]);
      }
    }
  }

  lemma {:induction false} SameByte(a: bv8, b: bv8)
    requires forall k: nat | k < 8 :: Bit(a, k) == Bit(b, k)
    ensures a == b
  {
    assert Bit(a, 0) == Bit(b, 0) && Bit(a, 1) == Bit(b, 1) && Bit(a, 2) == Bit(b, 2) && Bit(a, 3) == Bit(b, 3);
    assert Bit(a, 4) == Bit(b, 4) && Bit(a, 5) == Bit(b, 5) && Bit(a, 6) == Bit(b, 6) && Bit(a, 7) == Bit(b, 7);
  }

  // ----- No answer is lost

  lemma {:induction false} MemberBit(a: seq<int>, x: int)
    requires x in a
    ensures Slot(x) in RowBits(a)
  {
    var i :| 0 <= i < |a| && a[i] == x;
    assert Slot(a[i]) == Slot(x);
  }

  lemma {:induction false} SubsetBits(a: seq<int>, b: seq<int>)
    requires Members(a) <= Members(b)
    ensures RowBits(a) <= RowBits(b)
  {
    forall i | 0 <= i < |a| ensures Slot(a[i]) in RowBits(b) {
      assert a[i] in Members(a);
      MemberBit(b, a[i]);
    }
  }

  /** A row that satisfies the operator passes under every key with its bits, but for an empty row contained in the query. */
  lemma {:induction false} SatisfyingRowPasses(a: seq<int>, q: Query, k: Key)
    requires Satisfies(a, q) && RowBits(a) <= KeyBits(k, SIGLEN)
    ensures q.ContainedBy? ==> a != [] ==> Passes(k, q, false)
    ensures !q.ContainedBy? ==> Passes(k, q, false)
    ensures KeyBits(k, SIGLEN) == RowBits(a) ==> Passes(k, q, true)
  {
    match q
    case Overlaps(b) =>
      var x :| x in Members(a) * Members(b);
      MemberBit(a, x);
      MemberBit(b, x);
      assert Slot(x) in KeyBits(k, SIGLEN) * RowBits(b);
    case Same(b) =>
      SubsetBits(a, b);
      SubsetBits(b, a);
    case Contains(b) =>
      SubsetBits(b, a);
    case ContainedBy(b) =>
      SubsetBits(a, b);
      if a != [] {
        MemberBit(a, a[0]);
        assert Slot(a[0]) in KeyBits(k, SIGLEN) * RowBits(b);
      }
  }

  lemma {:induction false} OneBit(v: int)
    ensures RowBits([v]) == {Slot(v)}
  {
    assert Slot([v][0]) in RowBits([v]);
  }

  /** An inner key that is not all ones passes exactly if some row with no more bits satisfies the operator, for containment in the query one with members. */
  lemma {:induction false} InnerIsTight(k: Key, q: Query)
    requires k.Sign?
    ensures Passes(k, q, false) <==> exists a :: RowBits(a) <= KeyBits(k, SIGLEN) && Satisfies(a, q) && (q.ContainedBy? ==> a != [])
  {
    var bits := KeyBits(k, SIGLEN);
    forall a | RowBits(a) <= bits && Satisfies(a, q) && (q.ContainedBy? ==> a != []) ensures Passes(k, q, false) {
      SatisfyingRowPasses(a, q, k);
    }
    if Passes(k, q, false) {
      if q.Overlaps? || q.ContainedBy? {
        var common := bits * RowBits(q.b);
        var x :| x in common;
        var i :| 0 <= i < |q.b| && Slot(q.b[i]) == x;
        var a := [q.b[i]];
        OneBit(q.b[i]);
        assert q.b[i] in Members(a) * Members(q.b);
        assert RowBits(a) <= bits && Satisfies(a, q);
      } else {
        assert RowBits(q.b) <= bits && Satisfies(q.b, q);
      }
    }
  }

  ghost function BitsOfRow(): seq<int> -> set<nat> {
    (r: seq<int>) => RowBits(r)
  }

  /** The search for the operator gets to a leaf with the row. */
  ghost predicate Found(t: SignSearch.Tree<seq<int>>, a: seq<int>, q: Query) {
    Hit(t, a, (k: Key) => Passes(k, q, true), (k: Key) => Passes(k, q, false))
  }

  /** Searching the index finds every row that satisfies the operator, an empty row contained in the query excepted. */
  lemma {:induction false} IndexLosesNothing(t: SignSearch.Tree<seq<int>>, a: seq<int>, q: Query)
    requires Satisfies(a, q) && (q.ContainedBy? ==> a != [])
    requires Grown(t, SIGLEN, BitsOfRow()) && Below(t, a)
    ensures Found(t, a, q)
  {
    forall k | KeyBits(k, SIGLEN) == RowBits(a) ensures Passes(k, q, true) {
      SatisfyingRowPasses(a, q, k);
    }
    forall k | RowBits(a) <= KeyBits(k, SIGLEN) ensures Passes(k, q, false) {
      SatisfyingRowPasses(a, q, k);
    }
    SearchLosesNothing(t, a, SIGLEN, BitsOfRow(), (k: Key) => Passes(k, q, true), (k: Key) => Passes(k, q, false));
  }

  /** The signature of an empty row, and a page that holds nothing else. */
  function NoBits(): Key {
    Sign(seq(SIGLEN, _ => 0))
  }

  function EmptyRowPage(): SignSearch.Tree<seq<int>> {
    Inner(NoBits(), [Leaf(NoBits(), [])])
  }

  /** An empty row is contained in every array, and on a page of its own it is never found so. */
  lemma {:induction false} EmptyRowIsMissed(b: seq<int>)
    ensures Satisfies([], ContainedBy(b)) && Grown(EmptyRowPage(), SIGLEN, BitsOfRow()) && Below(EmptyRowPage(), [])
    ensures !Passes(NoBits(), ContainedBy(b), false) && !Found(EmptyRowPage(), [], ContainedBy(b))
  {
    BitsOfConstant(NoBits().sign, 0);
    assert KeyBits(NoBits(), SIGLEN) == {} == RowBits([]);
    assert Below(EmptyRowPage().kids[0], []);
  }

  /** A row contained in the query is found in every index that holds it, and passes under every key, exactly if it is not empty. */
  lemma {:induction false} ContainedByFoundExactly(a: seq<int>, b: seq<int>)
    requires Satisfies(a, ContainedBy(b))
    ensures (forall t | Grown(t, SIGLEN, BitsOfRow()) && Below(t, a) :: Found(t, a, ContainedBy(b))) <==> a != []
    ensures (forall k | RowBits(a) <= KeyBits(k, SIGLEN) :: Passes(k, ContainedBy(b), false)) <==> a != []
  {
    if a == [] {
      EmptyRowIsMissed(b);
      assert RowBits(a) == {};
    } else {
      forall t | Grown(t, SIGLEN, BitsOfRow()) && Below(t, a) ensures Found(t, a, ContainedBy(b)) {
        IndexLosesNothing(t, a, ContainedBy(b));
      }
      forall k | RowBits(a) <= KeyBits(k, SIGLEN) ensures Passes(k, ContainedBy(b), false) {
        SatisfyingRowPasses(a, ContainedBy(b), k);
      }
    }
  }

  // ----- Boolean search

  /** signconsistent with checkcondition_bit, and a key of ones. */
  ghost predicate PassesBoolean(k: Key, items: seq<BoolEval.Item>, size: nat)
    requires 0 < size <= |items| && BoolEval.Safe(items)
  {
    k.AllTrue? || BoolEval.Execute(items, size - 1, false, (i: nat, n: int) => Slot(n) in KeyBits(k, SIGLEN))
  }

  /** A row that satisfies a boolean query passes under every key with its bits. */
  lemma {:induction false} SatisfyingRowPassesBoolean(items: seq<BoolEval.Item>, t: BoolQuery.Tree, a: seq<int>, k: Key)
    requires BoolEval.LinksFit(t) && BoolEval.Holds(items, 0, t) && BoolEval.Safe(items)
    requires BoolIndex.Satisfies(t, Members(a)) && RowBits(a) <= KeyBits(k, SIGLEN)
    ensures BoolQuery.Size(t) <= |items| && PassesBoolean(k, items, BoolQuery.Size(t))
  {
    forall n | n in Members(a) ensures Slot(n) in KeyBits(k, SIGLEN) {
      MemberBit(a, n);
    }
    var row := Members(a);
    BoolIndex.InnerKeyIsConsistent(items, t, row, (i: nat, n: int) => n in row, (i: nat, n: int) => Slot(n) in KeyBits(k, SIGLEN));
  }

  /** Searching the index finds every row that satisfies a boolean query. */
  lemma {:induction false} BooleanLosesNothing(tree: SignSearch.Tree<seq<int>>, items: seq<BoolEval.Item>, t: BoolQuery.Tree, a: seq<int>)
    requires BoolEval.LinksFit(t) && items == BoolEval.Linked(t) && BoolIndex.Satisfies(t, Members(a))
    requires Grown(tree, SIGLEN, BitsOfRow()) && Below(tree, a)
    ensures BoolEval.Safe(items) && Hit(tree, a, Asks(items), Asks(items))
  {
    BoolEval.LinkedIsSafe(t);
    forall k | RowBits(a) <= KeyBits(k, SIGLEN) ensures Asks(items)(k) {
      SatisfyingRowPassesBoolean(items, t, a, k);
    }
    SearchLosesNothing(tree, a, SIGLEN, BitsOfRow(), Asks(items), Asks(items));
  }

  /** The test of a boolean query on a key. */
  ghost function Asks(items: seq<BoolEval.Item>): Key -> bool
    requires items != [] && BoolEval.Safe(items)
  {
    (k: Key) => PassesBoolean(k, items, |items|)
  }
}
