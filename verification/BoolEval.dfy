/**
  Query items with back-links, as contrib/intarray/_int_bool.c stores them:
  findoprnd, bqarr_in and execute.
 */
module BoolEval {
  import opened BoolQuery
  import opened BoolParser
  import opened BoolSpelling

  /** An entry of the stored query; left leads to the left operand. */
  datatype Item = Item(node: Node, left: int)

  /** Largest item count whose varlena still fits the allocator: (0x3fffffff - 8) / 8. */
  const QUERYTYPEMAXITEMS: nat := 134217726

  /** Assignment to the 16-bit field. */
  function Wrap16(x: int): int {
    (x + 0x8000) % 0x10000 - 0x8000
  }

  /** The stored form of a query: its postfix with the links that findoprnd computes. */
  function Linked(t: Tree): (items: seq<Item>)
    ensures |items| == Size(t)
  {
    match t
    case Leaf(n) => [Item(Value(n), 0)]
    case Neg(u) => Linked(u) + [Item(Operator(Not), -1)]
    case Join(both, l, r) => Linked(l) + Linked(r) + [Item(Operator(if both then And else Or), Wrap16(-(Size(r) + 1)))]
  }

  /** Every right operand is short enough for the link over it to fit 16 bits. */
  predicate LinksFit(t: Tree) {
    match t
    case Leaf(_) => true
    case Neg(u) => LinksFit(u)
    case Join(_, l, r) => LinksFit(l) && LinksFit(r) && Size(r) < 0x8000
  }

  // ----- findoprnd

  ghost predicate Spells(items: seq<Item>, nodes: seq<Node>) {
    |items| == |nodes| && forall k | 0 <= k < |items| :: items[k].node == nodes[k]
  }

  /** The stored form still carries the polish notation. */
  lemma {:induction false} LinkedSpells(t: Tree)
    ensures Spells(Linked(t), Post(t))
  {
    if t.Neg? {
      LinkedSpells(t.t);
    } else if t.Join? {
      LinkedSpells(t.l);
      LinkedSpells(t.r);
    }
  }

  lemma {:induction false} SpellsParts(s: seq<Item>, l: seq<Node>, r: seq<Node>, x: Node)
    requires Spells(s, l + r + [x])
    ensures Spells(s[..|l|], l) && Spells(s[|l|..|s| - 1], r) && s[|s| - 1].node == x
  {
  }

  /** The part of the polish notation that belongs to each operand. */
  lemma {:induction false} Operands(s: seq<Item>, t: Tree)
    requires Spells(s, Post(t))
    ensures s[|s| - 1].node == match t case Leaf(n) => Value(n) case Neg(_) => Operator(Not) case Join(both, _, _) => Operator(if both then And else Or)
    ensures t.Neg? ==> Spells(s[..|s| - 1], Post(t.t))
    ensures t.Join? ==> Spells(s[..Size(t.l)], Post(t.l)) && Spells(s[Size(t.l)..|s| - 1], Post(t.r))
  {
    match t
    case Leaf(n) =>
      assert s[0].node == Value(n);
    case Neg(u) =>
      assert Post(t) == Post(u) + [] + [Operator(Not)];
      SpellsParts(s, Post(u), [], Operator(Not));
    case Join(both, l, r) =>
      SpellsParts(s, Post(l), Post(r), Operator(if both then And else Or));
  }

  method SetLeft(ptr: array<Item>, pos: nat, left: int)
    requires pos < ptr.Length
    modifies ptr
    ensures ptr[..] == old(ptr[..])[pos := old(ptr[pos]).(left := left)]
  {
    ptr[pos] := ptr[pos].(left := left);
  }

  /**
    Links the operand that ends at pos. The array is a + w + b, where w carries
    the polish notation of t; in the end w is replaced by the stored form of t.
   */
  method FindOprnd(ptr: array<Item>, pos: nat, ghost a: seq<Item>, ghost w: seq<Item>, ghost b: seq<Item>, ghost t: Tree)
    returns (pos': int)
    requires ptr[..] == a + w + b && pos == |a| + |w| - 1 && Spells(w, Post(t))
    modifies ptr
    ensures pos' == |a| - 1
    ensures ptr[..] == a + Linked(t) + b
    decreases t, 1
  {
    Operands(w, t);
    assert ptr[pos] == (a + w + b)[pos] == w[|w| - 1];
    match ptr[pos].node
    case Value(_) =>
      SetLeft(ptr, pos, 0);
      pos' := pos - 1;
    case Operator(op) =>
      if op == Not {
        pos' := FindOnlyOprnd(ptr, pos, a, w, b, t);
      } else {
        pos' := FindBothOprnds(ptr, pos, a, w, b, t);
      }
  }

  /** The branch for !. */
  method FindOnlyOprnd(ptr: array<Item>, pos: nat, ghost a: seq<Item>, ghost w: seq<Item>, ghost b: seq<Item>, ghost t: Tree)
    returns (pos': int)
    requires ptr[..] == a + w + b && pos == |a| + |w| - 1 && Spells(w, Post(t)) && t.Neg?
    modifies ptr
    ensures pos' == |a| - 1
    ensures ptr[..] == a + Linked(t) + b
    decreases t, 0
  {
    Operands(w, t);
    ghost var u, x := w[..|w| - 1], Item(Operator(Not), -1);
    assert ptr[pos] == (a + w + b)[pos] == w[|w| - 1];
    SetLeft(ptr, pos, -1);
    assert ptr[..] == a + u + ([x] + b);
    pos' := FindOprnd(ptr, pos - 1, a, u, [x] + b, t.t);
    SplitLinked(a, t, b);
  }

  /** The branch for the binary operators: the right operand is next to the operator, the left one before it. */
  method FindBothOprnds(ptr: array<Item>, pos: nat, ghost a: seq<Item>, ghost w: seq<Item>, ghost b: seq<Item>, ghost t: Tree)
    returns (pos': int)
    requires ptr[..] == a + w + b && pos == |a| + |w| - 1 && Spells(w, Post(t)) && t.Join?
    modifies ptr
    ensures pos' == |a| - 1
    ensures ptr[..] == a + Linked(t) + b
    decreases t, 0
  {
    Operands(w, t);
    ghost var l, r, x := w[..Size(t.l)], w[Size(t.l)..|w| - 1], w[|w| - 1];
    assert w == l + r + [x];
    Regroup(a, l, r, x, b);
    pos' := FindOprnd(ptr, pos - 1, a + l, r, [x] + b, t.r);
    ghost var done := Linked(t.r);
    Regroup(a, l, done, x, b);
    assert ptr[pos] == ptr[..][pos] == x;
    SetLeft(ptr, pos, Wrap16(pos' - pos));
    assert ptr[..] == a + l + (done + [Link(t)] + b) by {
      Regroup(a, l, done, Link(t), b);
      assert x.(left := Wrap16(pos' - pos)) == Link(t);
      assert ptr[..] == (a + (l + done + [x]) + b)[pos := Link(t)] == a + (l + done + [Link(t)]) + b;
    }
    pos' := FindOprnd(ptr, pos', a, l, done + [Link(t)] + b, t.l);
    SplitLinked(a, t, b);
  }

  /** A postfix form tells its query, even at the end of a longer sequence. */
  lemma {:induction false} PostIsUnique(a: seq<Node>, t: Tree, b: seq<Node>, u: Tree)
    requires a + Post(t) == b + Post(u)
    ensures a == b && t == u
    decreases t
  {
    var s := a + Post(t);
    assert s[|s| - 1] == Post(t)[Size(t) - 1] == Post(u)[Size(u) - 1];
    match t
    case Leaf(_) =>
      assert a == s[..|s| - 1] == b;
    case Neg(_) =>
      assert a + Post(t.t) == s[..|s| - 1] == b + Post(u.t);
      PostIsUnique(a, t.t, b, u.t);
    case Join(_, l, r) =>
      assert (a + Post(l)) + Post(r) == s[..|s| - 1] == (b + Post(u.l)) + Post(u.r);
      PostIsUnique(a + Post(l), r, b + Post(u.l), u.r);
      PostIsUnique(a, l, b, u.l);
  }

  // ----- bqarr_in

  datatype Parsed = Query(items: seq<Item>) | SyntaxErr | TooComplexErr | EmptyQuery | TooManyItems

  /** What the source reports for a phrase of the grammar. */
  function ParsedAs(e: Expr): Parsed {
    if !FitsE(e) then TooComplexErr
    else if Size(TreeE(e)) > QUERYTYPEMAXITEMS then TooManyItems
    else Query(Linked(TreeE(e)))
  }

  /** Two phrases spelled with the same tokens are the same query. */
  lemma {:induction false} PhrasesAgree(toks: seq<Token>, e: Expr, e': Expr)
    requires toks == YieldE(e) + [End] && toks == YieldE(e') + [End]
    ensures ParsedAs(e) == ParsedAs(e')
  {
    PhraseIsTranslated(e);
    PhraseIsTranslated(e');
    if FitsE(e) {
      assert [] + Post(TreeE(e)) == [] + Post(TreeE(e'));
      PostIsUnique([], TreeE(e), [], TreeE(e'));
    }
  }

  /** The outcome r is what the grammar asks of the text. */
  ghost predicate ReadsAs(text: string, r: Parsed) {
    && (forall e :: Writes(text, YieldE(e)) ==> r == ParsedAs(e))
    && (r.Query? ==> exists e :: Writes(text, YieldE(e)))
  }

  lemma {:induction false} ReadsAsPhrase(text: string, e: Expr)
    requires Writes(text, YieldE(e))
    ensures ReadsAs(text, ParsedAs(e))
  {
    PhraseIsLexed(text, e);
    forall e' | Writes(text, YieldE(e')) ensures ParsedAs(e) == ParsedAs(e') {
      PhraseIsLexed(text, e');
      PhrasesAgree(Lexed(text), e, e');
    }
  }

  /**
    The input function. A text that writes a phrase of the grammar becomes that
    phrase's items; every other text is a syntax error or is refused for its
    depth, and the message about an empty query is never given.
   */
  method BqarrIn(text: string) returns (r: Parsed)
    ensures ReadsAs(text, r)
    ensures r.SyntaxErr? ==> Last(Lexed(text)) == Err
    ensures r != EmptyQuery
  {
    var state := new WorkState(text);
    ghost var toks := Lexed(text);
    TokensHaveShape(text, Lex(0, true, 0));
    TranslationIsExact(toks);
    forall e ensures Writes(text, YieldE(e)) <==> toks == YieldE(e) + [End] {
      PhraseIsLexed(text, e);
    }
    var v := state.MakePol();
    if v == BadSyntax {
      return SyntaxErr;
    }
    if v == Complex {
      return TooComplexErr;
    }
    ghost var e := AcceptedIsPhrase(toks);
    ReadsAsPhrase(text, e);
    if state.num == 0 {
      return EmptyQuery;
    }
    if state.num > QUERYTYPEMAXITEMS {
      return TooManyItems;
    }
    var items := LinkOperands(state.str, state.num, TreeE(e));
    return Query(items);
  }

  /** The polish notation copied to an array and linked. */
  method LinkOperands(str: List, num: nat, ghost t: Tree) returns (items: seq<Item>)
    requires num == |Pushed(str)| && Pushed(str) == Post(t)
    ensures items == Linked(t)
  {
    var ptr := CopyOut(str, num);
    Bare(ptr[..]);
    Bare(Linked(t));
    var pos := FindOprnd(ptr, num - 1, [], ptr[..], [], t);
    items := ptr[..];
  }

  lemma {:induction false} Bare(items: seq<Item>)
    ensures [] + items + [] == items
  {
  }

  /** The list holds the notation backwards; the array is filled from its end. */
  method CopyOut(str: List, num: nat) returns (ptr: array<Item>)
    requires num == |Pushed(str)|
    ensures fresh(ptr) && Spells(ptr[..], Pushed(str))
  {
    ptr := new Item[num](i => Item(Value(0), 0));
    var rest := str;
    var i := num;
    while i > 0
      invariant i <= num && Pushed(rest) == Pushed(str)[..i]
      invariant forall k | i <= k < num :: ptr[k].node == Pushed(str)[k]
    {
      i := i - 1;
      assert Pushed(rest)[i] == rest.node && Pushed(rest.next) == Pushed(rest)[..i];
      ptr[i] := Item(rest.node, 0);
      rest := rest.next;
    }
  }

  // ----- execute

  /** No operator looks outside the items before it. */
  ghost predicate Safe(items: seq<Item>) {
    forall k | 0 <= k < |items| :: SafeAt(items, k)
  }

  predicate SafeAt(items: seq<Item>, k: nat)
    requires k < |items|
  {
    items[k].node.Operator? ==> 0 < k && (items[k].node.op != Not ==> 0 <= k + items[k].left < k)
  }

  /** Evaluation by the back-links; check decides the item at an index that holds a number. */
  predicate Execute(items: seq<Item>, cur: nat, calcNot: bool, check: (nat, int) -> bool)
    requires Safe(items) && cur < |items|
    decreases cur
  {
    assert SafeAt(items, cur);
    match items[cur].node
    case Value(n) => check(cur, n)
    case Operator(op) =>
      if op == Not then
        (if calcNot then !Execute(items, cur - 1, calcNot, check) else true)
      else if op == And then
        Execute(items, cur + items[cur].left, calcNot, check) && Execute(items, cur - 1, calcNot, check)
      else
        Execute(items, cur + items[cur].left, calcNot, check) || Execute(items, cur - 1, calcNot, check)
  }

  /** The same walk over the tree, whose items start at index lo. */
  predicate Walk(t: Tree, lo: nat, calcNot: bool, check: (nat, int) -> bool) {
    match t
    case Leaf(n) => check(lo, n)
    case Neg(u) => calcNot ==> !Walk(u, lo, calcNot, check)
    case Join(both, l, r) =>
      if both then Walk(l, lo, calcNot, check) && Walk(r, lo + Size(l), calcNot, check)
      else Walk(l, lo, calcNot, check) || Walk(r, lo + Size(l), calcNot, check)
  }

  lemma {:induction false} Regroup<T>(a: seq<T>, l: seq<T>, r: seq<T>, x: T, b: seq<T>)
    ensures a + (l + r + [x]) + b == a + l + (r + [x] + b)
    ensures a + (l + r + [x]) + b == (a + l) + r + ([x] + b)
    ensures (a + (l + r + [x]) + b)[|a| + |l| + |r|] == x
  {
  }

  lemma {:induction false} RegroupOne<T>(a: seq<T>, l: seq<T>, x: T, b: seq<T>)
    ensures a + (l + [x]) + b == a + l + ([x] + b)
    ensures (a + (l + [x]) + b)[|a| + |l|] == x
  {
  }

  function Link(t: Tree): Item
    requires t.Join?
  {
    Item(Operator(if t.both then And else Or), Wrap16(-(Size(t.r) + 1)))
  }

  /** A stored query within more items, seen as its operands within more items. */
  lemma {:induction false} SplitLinked(a: seq<Item>, t: Tree, b: seq<Item>)
    ensures t.Leaf? ==> (a + Linked(t) + b)[|a|] == Item(Value(t.n), 0)
    ensures t.Neg? ==>
              && a + Linked(t) + b == a + Linked(t.t) + ([Item(Operator(Not), -1)] + b)
              && (a + Linked(t) + b)[|a| + Size(t.t)] == Item(Operator(Not), -1)
    ensures t.Join? ==>
              && a + Linked(t) + b == a + Linked(t.l) + (Linked(t.r) + [Link(t)] + b)
              && a + Linked(t) + b == (a + Linked(t.l)) + Linked(t.r) + ([Link(t)] + b)
              && (a + Linked(t) + b)[|a| + Size(t.l) + Size(t.r)] == Link(t)
  {
    if t.Neg? {
      RegroupOne(a, Linked(t.t), Item(Operator(Not), -1), b);
    } else if t.Join? {
      Regroup(a, Linked(t.l), Linked(t.r), Link(t), b);
    }
  }

  /** The items are a, then the stored form of t, then b. */
  ghost predicate Within(items: seq<Item>, a: seq<Item>, t: Tree, b: seq<Item>) {
    items == a + Linked(t) + b
  }

  /** The items from index lo on are the stored form of t. */
  ghost predicate Holds(items: seq<Item>, lo: nat, t: Tree)
    decreases t
  {
    lo + Size(t) <= |items| &&
    match t
    case Leaf(n) => items[lo] == Item(Value(n), 0)
    case Neg(u) => Holds(items, lo, u) && items[lo + Size(u)] == Item(Operator(Not), -1)
    case Join(_, l, r) =>
      Holds(items, lo, l) && Holds(items, lo + Size(l), r) && items[lo + Size(l) + Size(r)] == Link(t)
  }

  lemma {:induction false} WithinHolds(items: seq<Item>, lo: nat, a: seq<Item>, t: Tree, b: seq<Item>)
    requires Within(items, a, t, b) && lo == |a|
    ensures Holds(items, lo, t)
    decreases t
  {
    SplitLinked(a, t, b);
    match t
    case Leaf(_) =>
    case Neg(u) =>
      WithinHolds(items, lo, a, u, [Item(Operator(Not), -1)] + b);
    case Join(_, l, r) =>
      WithinHolds(items, lo, a, l, Linked(r) + [Link(t)] + b);
      WithinHolds(items, lo + Size(l), a + Linked(l), r, [Link(t)] + b);
  }

  lemma {:induction false} LinksAreSafe(items: seq<Item>, lo: nat, t: Tree, k: nat)
    requires Holds(items, lo, t) && LinksFit(t) && lo <= k < lo + Size(t)
    ensures SafeAt(items, k)
    decreases t
  {
    if k < lo + Size(t) - 1 {
      if t.Neg? {
        LinksAreSafe(items, lo, t.t, k);
      } else if k < lo + Size(t.l) {
        LinksAreSafe(items, lo, t.l, k);
      } else {
        LinksAreSafe(items, lo + Size(t.l), t.r, k);
      }
    }
  }

  /** One step of the evaluation of a join, its link resolved. */
  lemma {:induction false} ExecuteJoin(items: seq<Item>, lo: nat, t: Tree, calcNot: bool, check: (nat, int) -> bool)
    requires Safe(items) && t.Join? && Size(t.r) < 0x8000
    requires lo + Size(t.l) + Size(t.r) < |items| && items[lo + Size(t.l) + Size(t.r)] == Link(t)
    requires Execute(items, lo + Size(t.l) - 1, calcNot, check) == Walk(t.l, lo, calcNot, check)
    requires Execute(items, lo + Size(t.l) + Size(t.r) - 1, calcNot, check) == Walk(t.r, lo + Size(t.l), calcNot, check)
    ensures Execute(items, lo + Size(t) - 1, calcNot, check) == Walk(t, lo, calcNot, check)
  {
    var cur := lo + Size(t.l) + Size(t.r);
    assert SafeAt(items, cur);
    assert cur + items[cur].left == lo + Size(t.l) - 1;
  }

  lemma {:induction false} ExecuteSmall(items: seq<Item>, lo: nat, t: Tree, calcNot: bool, check: (nat, int) -> bool)
    requires Safe(items) && Holds(items, lo, t) && !t.Join?
    requires t.Neg? ==> Execute(items, lo + Size(t.t) - 1, calcNot, check) == Walk(t.t, lo, calcNot, check)
    ensures Execute(items, lo + Size(t) - 1, calcNot, check) == Walk(t, lo, calcNot, check)
  {
  }

  /** Following the links is walking the tree. */
  lemma {:induction false} ExecuteIsWalk(items: seq<Item>, lo: nat, t: Tree, calcNot: bool, check: (nat, int) -> bool)
    requires Holds(items, lo, t) && LinksFit(t) && Safe(items)
    ensures Execute(items, lo + Size(t) - 1, calcNot, check) == Walk(t, lo, calcNot, check)
    decreases t
  {
    match t
    case Leaf(n) =>
      ExecuteSmall(items, lo, t, calcNot, check);
    case Neg(u) =>
      ExecuteIsWalk(items, lo, u, calcNot, check);
      ExecuteSmall(items, lo, t, calcNot, check);
    case Join(_, l, r) =>
      ExecuteIsWalk(items, lo, l, calcNot, check);
      ExecuteIsWalk(items, lo + Size(l), r, calcNot, check);
      ExecuteJoin(items, lo, t, calcNot, check);
  }

  /** check answers for the numbers of t, stored from index lo on, as member does. */
  ghost predicate Agrees(t: Tree, lo: nat, check: (nat, int) -> bool, member: int -> bool) {
    forall k | 0 <= k < Size(t) && Post(t)[k].Value? :: check(lo + k, Post(t)[k].n) == member(Post(t)[k].n)
  }

  lemma {:induction false} WalkIsMeaning(t: Tree, lo: nat, check: (nat, int) -> bool, member: int -> bool)
    requires Agrees(t, lo, check, member)
    ensures Walk(t, lo, true, check) == Meaning(t, member)
  {
    match t
    case Leaf(n) =>
      assert Post(t)[0] == Value(n);
    case Neg(u) =>
      assert forall k | 0 <= k < Size(u) :: Post(t)[k] == Post(u)[k];
      WalkIsMeaning(u, lo, check, member);
    case Join(_, l, r) =>
      AgreesBelow(t, lo, check, member);
      WalkIsMeaning(l, lo, check, member);
      WalkIsMeaning(r, lo + Size(l), check, member);
  }

  lemma {:induction false} AgreesBelow(t: Tree, lo: nat, check: (nat, int) -> bool, member: int -> bool)
    requires Agrees(t, lo, check, member) && t.Join?
    ensures Agrees(t.l, lo, check, member) && Agrees(t.r, lo + Size(t.l), check, member)
  {
    forall k | 0 <= k < Size(t.l) && Post(t.l)[k].Value?
      ensures check(lo + k, Post(t.l)[k].n) == member(Post(t.l)[k].n)
    {
      assert Post(t)[k] == Post(t.l)[k];
    }
    forall k | 0 <= k < Size(t.r) && Post(t.r)[k].Value?
      ensures check(lo + Size(t.l) + k, Post(t.r)[k].n) == member(Post(t.r)[k].n)
    {
      assert Post(t)[Size(t.l) + k] == Post(t.r)[k];
    }
  }

  /** The stored query reads only what is before each item. */
  lemma {:induction false} LinkedIsSafe(t: Tree)
    requires LinksFit(t)
    ensures Safe(Linked(t)) && Holds(Linked(t), 0, t)
  {
    var items := Linked(t);
    assert items == [] + Linked(t) + [];
    WithinHolds(items, 0, [], t, []);
    forall k | 0 <= k < |items| ensures SafeAt(items, k) {
      LinksAreSafe(items, 0, t, k);
    }
  }

  /** The stored query, run by its links, means what the query means. */
  lemma {:induction false} QueryMeans(items: seq<Item>, t: Tree, check: (nat, int) -> bool, member: int -> bool)
    requires LinksFit(t) && Holds(items, 0, t) && Safe(items) && Agrees(t, 0, check, member)
    ensures Execute(items, Size(t) - 1, true, check) == Meaning(t, member)
  {
    ExecuteIsWalk(items, 0, t, true, check);
    WalkIsMeaning(t, 0, check, member);
  }
}
