/**
  Searching an index with a boolean query: what contrib/intarray/_int_bool.c and
  contrib/intarray/_int_gin.c hand to GiST and GIN, and why no answer is lost.
 */
module BoolIndex {
  import opened BoolQuery
  import opened BoolEval

  ghost predicate Sorted(a: seq<int>) {
    forall i, j | 0 <= i < j < |a| :: a[i] < a[j]
  }

  /** checkcondition_arr: binary search of the sorted array. */
  method CheckConditionArr(a: array<int>, val: int) returns (found: bool)
    requires Sorted(a[..])
    ensures found <==> val in a[..]
  {
    var low, high := 0, a.Length;
    while low < high
      invariant 0 <= low <= high <= a.Length
      invariant forall i | 0 <= i < low :: a[i] < val
      invariant forall i | high <= i < a.Length :: val < a[i]
    {
      var middle := low + (high - low) / 2;
      assert a[..][middle] == a[middle];
      if a[middle] == val {
        return true;
      } else if a[middle] < val {
        forall i | 0 <= i < middle + 1 ensures a[i] < val {
          assert i < middle ==> a[..][i] < a[..][middle];
        }
        low := middle + 1;
      } else {
        forall i | middle <= i < a.Length ensures val < a[i] {
          assert middle < i ==> a[..][middle] < a[..][i];
        }
        high := middle;
      }
    }
    return false;
  }

  // ----- GiST: a key that covers more than the row

  /** With NOT taken as true, adding members cannot turn the answer to false. */
  lemma {:induction false} LooseWalkIsMonotone(t: Tree, lo: nat, check: (nat, int) -> bool, wider: (nat, int) -> bool)
    requires forall i, n :: check(i, n) ==> wider(i, n)
    requires Walk(t, lo, true, check)
    ensures Walk(t, lo, false, wider)
  {
    match t
    case Leaf(n) =>
    case Neg(_) =>
    case Join(both, l, r) =>
      if both || Walk(l, lo, true, check) {
        LooseWalkIsMonotone(l, lo, check, wider);
      }
      if Walk(r, lo + Size(l), true, check) {
        LooseWalkIsMonotone(r, lo + Size(l), check, wider);
      }
  }

  /**
    execconsistent and signconsistent on an inner key: if a row below satisfies
    the query and the key passes every member of the row, the key is consistent.
   */
  lemma {:induction false} InnerKeyIsConsistent(items: seq<Item>, t: Tree, row: set<int>, exact: (nat, int) -> bool, passes: (nat, int) -> bool)
    requires LinksFit(t) && Holds(items, 0, t) && Safe(items)
    requires Satisfies(t, row)
    requires forall i, n :: exact(i, n) == (n in row)
    requires forall i, n :: n in row ==> passes(i, n)
    ensures Execute(items, Size(t) - 1, false, passes)
  {
    WalkIsMeaning(t, 0, exact, n => n in row);
    LooseWalkIsMonotone(t, 0, exact, passes);
    ExecuteIsWalk(items, 0, t, false, passes);
  }

  // ----- GIN: required values

  /** contains_required_value, by the back-links. */
  predicate ContainsRequired(items: seq<Item>, cur: nat)
    requires Safe(items) && cur < |items|
    decreases cur
  {
    assert SafeAt(items, cur);
    match items[cur].node
    case Value(_) => true
    case Operator(op) =>
      if op == Not then false
      else if op == And then ContainsRequired(items, cur + items[cur].left) || ContainsRequired(items, cur - 1)
      else ContainsRequired(items, cur + items[cur].left) && ContainsRequired(items, cur - 1)
  }

  predicate Required(t: Tree) {
    match t
    case Leaf(_) => true
    case Neg(_) => false
    case Join(both, l, r) => if both then Required(l) || Required(r) else Required(l) && Required(r)
  }

  /** A query has a required value exactly if it fails where no number is found and every negation is taken as true. */
  lemma {:induction false} RequiredMeans(t: Tree, lo: nat)
    ensures Required(t) <==> !Walk(t, lo, false, (i: nat, n: int) => false)
  {
    match t
    case Leaf(_) =>
    case Neg(_) =>
    case Join(_, l, r) =>
      RequiredMeans(l, lo);
      RequiredMeans(r, lo + Size(l));
  }

  lemma {:induction false} RequiredJoin(items: seq<Item>, lo: nat, t: Tree)
    requires Safe(items) && t.Join? && Size(t.r) < 0x8000
    requires lo + Size(t.l) + Size(t.r) < |items| && items[lo + Size(t.l) + Size(t.r)] == Link(t)
    ensures var left := ContainsRequired(items, lo + Size(t.l) - 1);
            var right := ContainsRequired(items, lo + Size(t.l) + Size(t.r) - 1);
            ContainsRequired(items, lo + Size(t.l) + Size(t.r)) == if t.both then left || right else left && right
  {
    var cur := lo + Size(t.l) + Size(t.r);
    assert SafeAt(items, cur);
    assert cur + items[cur].left == lo + Size(t.l) - 1;
  }

  lemma {:induction false} ContainsRequiredIsRequired(items: seq<Item>, lo: nat, t: Tree)
    requires Holds(items, lo, t) && LinksFit(t) && Safe(items)
    ensures ContainsRequired(items, lo + Size(t) - 1) == Required(t)
    decreases t
  {
    match t
    case Leaf(n) =>
    case Neg(u) =>
    case Join(_, l, r) =>
      ContainsRequiredIsRequired(items, lo, l);
      ContainsRequiredIsRequired(items, lo + Size(l), r);
      RequiredJoin(items, lo, t);
  }

  /** The numbers of a query in the order of its items. */
  function Numbers(nodes: seq<Node>): seq<int> {
    if nodes == [] then []
    else Numbers(nodes[..|nodes| - 1]) + (if nodes[|nodes| - 1].Value? then [nodes[|nodes| - 1].n] else [])
  }

  lemma {:induction false} NumbersHold(nodes: seq<Node>, k: nat)
    requires k < |nodes| && nodes[k].Value?
    ensures nodes[k].n in Numbers(nodes)
  {
    if k < |nodes| - 1 {
      NumbersHold(nodes[..|nodes| - 1], k);
    }
  }

  /** If a required value exists, a row that satisfies the query holds some number of the query. */
  lemma {:induction false} SatisfyingRowHoldsValue(t: Tree, row: set<int>) returns (k: nat)
    requires Required(t) && Satisfies(t, row)
    ensures k < Size(t) && Post(t)[k].Value? && Post(t)[k].n in row
  {
    match t
    case Leaf(_) =>
      k := 0;
    case Join(both, l, r) =>
      if Required(l) && (both || Satisfies(l, row)) {
        k := SatisfyingRowHoldsValue(l, row);
      } else {
        k := SatisfyingRowHoldsValue(r, row);
        k := Size(l) + k;
      }
  }

  datatype SearchMode = Default | All

  /** Every row that satisfies the query has one of the entries. */
  ghost predicate EntriesSuffice(t: Tree, entries: seq<int>) {
    forall row: set<int> :: Satisfies(t, row) ==> exists n :: n in entries && n in row
  }

  predicate Satisfies(t: Tree, row: set<int>) {
    Meaning(t, n => n in row)
  }

  lemma {:induction false} RequiredEntriesSuffice(t: Tree)
    requires Required(t)
    ensures EntriesSuffice(t, Numbers(Post(t)))
  {
    forall row: set<int> | Satisfies(t, row) ensures exists n :: n in Numbers(Post(t)) && n in row {
      var k := SatisfyingRowHoldsValue(t, row);
      NumbersHold(Post(t), k);
    }
  }

  /** ginint4_queryextract for a boolean query. */
  method QueryExtract(items: seq<Item>, ghost t: Tree) returns (entries: seq<int>, mode: SearchMode)
    requires LinksFit(t) && items == Linked(t)
    ensures entries == Numbers(Post(t))
    ensures mode == Default <==> Required(t)
    ensures mode == Default ==> EntriesSuffice(t, entries)
  {
    LinkedIsSafe(t);
    ContainsRequiredIsRequired(items, 0, t);
    mode := if ContainsRequired(items, |items| - 1) then Default else All;
    if mode == Default {
      RequiredEntriesSuffice(t);
    }
    entries := ExtractValues(items, Post(t)) by {
      LinkedSpells(t);
    }
  }

  method ExtractValues(items: seq<Item>, ghost nodes: seq<Node>) returns (entries: seq<int>)
    requires Spells(items, nodes)
    ensures entries == Numbers(nodes)
  {
    entries := [];
    for i := 0 to |items|
      invariant entries == Numbers(nodes[..i])
    {
      assert nodes[..i + 1][..i] == nodes[..i];
      if items[i].node.Value? {
        entries := entries + [items[i].node.n];
      }
    }
    assert nodes[..|items|] == nodes;
  }

  /** What GIN knows of a row: for each extracted entry, whether the row has it. */
  ghost predicate ChecksOf(check: seq<bool>, entries: seq<int>, row: set<int>) {
    |check| == |entries| && forall k | 0 <= k < |check| :: check[k] == (entries[k] in row)
  }

  /** gin_bool_consistent: the check bits are dealt back to the items that hold numbers. */
  method GinBoolConsistent(items: seq<Item>, check: seq<bool>, ghost t: Tree, ghost row: set<int>) returns (res: bool)
    requires LinksFit(t) && items == Linked(t) && ChecksOf(check, Numbers(Post(t)), row)
    ensures res == Satisfies(t, row)
  {
    LinkedSpells(t);
    var mapped := MapChecks(items, check, Post(t), row);
    var chk: (nat, int) -> bool := (i: nat, n: int) => i < |mapped| && mapped[i];
    LinkedIsSafe(t);
    assert |items| == Size(t);
    QueryMeans(items, t, chk, n => n in row);
    res := Execute(items, |items| - 1, true, chk);
  }

  method MapChecks(items: seq<Item>, check: seq<bool>, ghost nodes: seq<Node>, ghost row: set<int>) returns (mapped: seq<bool>)
    requires Spells(items, nodes) && ChecksOf(check, Numbers(nodes), row)
    ensures |mapped| == |items|
    ensures forall k | 0 <= k < |mapped| && nodes[k].Value? :: mapped[k] == (nodes[k].n in row)
  {
    mapped := [];
    var j := 0;
    for i := 0 to |items|
      invariant |mapped| == i && j == |Numbers(nodes[..i])|
      invariant forall k | 0 <= k < i && nodes[k].Value? :: mapped[k] == (nodes[k].n in row)
    {
      assert nodes[..i + 1][..i] == nodes[..i];
      NumbersPrefix(nodes, i + 1);
      if items[i].node.Value? {
        assert Numbers(nodes)[j] == nodes[i].n;
        mapped := mapped + [check[j]];
        j := j + 1;
      } else {
        mapped := mapped + [false];
      }
    }
  }

  lemma {:induction false} NumbersPrefix(nodes: seq<Node>, i: nat)
    requires i <= |nodes|
    ensures Numbers(nodes[..i]) <= Numbers(nodes)
    decreases |nodes|
  {
    if i < |nodes| {
      NumbersPrefix(nodes[..|nodes| - 1], i);
      assert nodes[..|nodes| - 1][..i] == nodes[..i];
    } else {
      assert nodes[..i] == nodes;
    }
  }

  // ----- The 16-bit back-link

  /** Every stored link leads to the left operand it is for. */
  predicate LinksLead(t: Tree) {
    match t
    case Leaf(_) => true
    case Neg(u) => LinksLead(u)
    case Join(_, l, r) => LinksLead(l) && LinksLead(r) && Link(t).left == -(Size(r) + 1)
  }

  /** The links are right exactly when every right operand has fewer than 2^15 items. */
  lemma {:induction false} LinksLeadExactly(t: Tree)
    ensures LinksLead(t) <==> LinksFit(t)
  {
    match t
    case Leaf(_) =>
    case Neg(u) =>
      LinksLeadExactly(u);
    case Join(_, l, r) =>
      LinksLeadExactly(l);
      LinksLeadExactly(r);
  }
}
