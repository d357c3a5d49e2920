/**
  The query_int language of contrib/intarray/_int_bool.c: its grammar, its
  meaning, and the operator-stack translation to postfix over a token stream.

  The grammar is given as datatypes. Left-nested Or and And make both operators
  left associative; the layering makes ! bind tighter than &, and & than |.
 */
module BoolQuery {

  datatype Op = Not | And | Or

  datatype Token = Val(n: int) | Opr(op: Op) | Open | Close | End | Err

  /** An entry of the polish notation. */
  datatype Node = Value(n: int) | Operator(op: Op)

  // ----- Grammar

  datatype Expr = Single(t: Term) | Disj(e: Expr, t: Term)
  datatype Term = Lone(f: Factor) | Conj(t: Term, f: Factor)
  datatype Factor = Number(n: int) | Negated(f: Factor) | Paren(e: Expr)

  /** The tokens that an expression is written with. */
  function YieldE(e: Expr): seq<Token> {
    match e
    case Single(t) => YieldT(t)
    case Disj(e, t) => YieldE(e) + [Opr(Or)] + YieldT(t)
  }

  function YieldT(t: Term): seq<Token> {
    match t
    case Lone(f) => YieldF(f)
    case Conj(t, f) => YieldT(t) + [Opr(And)] + YieldF(f)
  }

  function YieldF(f: Factor): seq<Token> {
    match f
    case Number(n) => [Val(n)]
    case Negated(f) => [Opr(Not)] + YieldF(f)
    case Paren(e) => [Open] + YieldE(e) + [Close]
  }

  // ----- Meaning

  /** A query without its spelling. */
  datatype Tree = Leaf(n: int) | Neg(t: Tree) | Join(both: bool, l: Tree, r: Tree)

  function TreeE(e: Expr): Tree {
    match e
    case Single(t) => TreeT(t)
    case Disj(e, t) => Join(false, TreeE(e), TreeT(t))
  }

  function TreeT(t: Term): Tree {
    match t
    case Lone(f) => TreeF(f)
    case Conj(t, f) => Join(true, TreeT(t), TreeF(f))
  }

  function TreeF(f: Factor): Tree {
    match f
    case Number(n) => Leaf(n)
    case Negated(f) => Neg(TreeF(f))
    case Paren(e) => TreeE(e)
  }

  /** The truth value of a query when member decides each number. */
  predicate Meaning(t: Tree, member: int -> bool) {
    match t
    case Leaf(n) => member(n)
    case Neg(t) => !Meaning(t, member)
    case Join(both, l, r) =>
      if both then Meaning(l, member) && Meaning(r, member) else Meaning(l, member) || Meaning(r, member)
  }

  /** The number of entries of a query's polish notation. */
  function Size(t: Tree): (n: nat)
    ensures 0 < n
  {
    match t
    case Leaf(_) => 1
    case Neg(u) => Size(u) + 1
    case Join(_, l, r) => Size(l) + Size(r) + 1
  }

  function Post(t: Tree): (p: seq<Node>)
    ensures |p| == Size(t)
  {
    match t
    case Leaf(n) => [Value(n)]
    case Neg(t) => Post(t) + [Operator(Not)]
    case Join(both, l, r) => Post(l) + Post(r) + [Operator(if both then And else Or)]
  }

  // ----- The operator stack

  const STACKDEPTH: nat := 16

  datatype PolResult = Done(rest: seq<Token>, out: seq<Node>) | SyntaxError | TooComplex

  /** After an operand, pending & and ! are emitted; a pending | stays. */
  function PopTight(stack: seq<Op>, out: seq<Node>): (seq<Op>, seq<Node>) {
    if stack != [] && stack[|stack| - 1] != Or
    then PopTight(stack[..|stack| - 1], out + [Operator(stack[|stack| - 1])])
    else (stack, out)
  }

  function PopAll(stack: seq<Op>, out: seq<Node>): seq<Node> {
    if stack == [] then out
    else PopAll(stack[..|stack| - 1], out + [Operator(stack[|stack| - 1])])
  }

  /** What makepol does with a token stream; an End is left in place. */
  function Pol(toks: seq<Token>, stack: seq<Op>, out: seq<Node>): (r: PolResult)
    ensures r.Done? ==> |r.rest| <= |toks|
    decreases |toks|
  {
    if toks == [] then SyntaxError
    else
      match toks[0]
      case Val(n) =>
        var (s, o) := PopTight(stack, out + [Value(n)]);
        Pol(toks[1..], s, o)
      case Opr(op) =>
        if stack != [] && op == Or then Pol(toks[1..], stack, out + [Operator(Or)])
        else if |stack| == STACKDEPTH then TooComplex
        else Pol(toks[1..], stack + [op], out)
      case Open =>
        var inner := Pol(toks[1..], [], out);
        if inner.Done? then
          var (s, o) := PopTight(stack, inner.out);
          Pol(inner.rest, s, o)
        else inner
      case Close => Done(toks[1..], PopAll(stack, out))
      case End => Done(toks, PopAll(stack, out))
      case Err => SyntaxError
  }

  // ----- Every phrase of the grammar is translated, if the stack is deep enough

  /** The factor needs at most STACKDEPTH stack cells when depth are taken. */
  predicate FitsF(f: Factor, depth: nat) {
    match f
    case Number(_) => true
    case Negated(f) => depth < STACKDEPTH && FitsF(f, depth + 1)
    case Paren(e) => FitsE(e)
  }

  predicate FitsT(t: Term, depth: nat) {
    match t
    case Lone(f) => FitsF(f, depth)
    case Conj(t, f) => FitsT(t, depth) && FitsF(f, depth + 1)
  }

  predicate FitsE(e: Expr) {
    match e
    case Single(t) => FitsT(t, 0)
    case Disj(e, t) => FitsE(e) && FitsT(t, 1)
  }

  /** A number behind k negations. */
  function Nots(k: nat, n: int): Factor {
    if k == 0 then Number(n) else Negated(Nots(k - 1, n))
  }

  lemma {:induction false} NotsFit(k: nat, n: int, depth: nat)
    ensures FitsF(Nots(k, n), depth) <==> k == 0 || depth + k <= 16
  {
    if k > 0 {
      NotsFit(k - 1, n, depth + 1);
    }
  }

  /** How deep that is: sixteen negations in a row, fourteen behind 0 | 0 &. */
  lemma {:induction false} StackHolds(k: nat, n: int)
    ensures FitsE(Single(Lone(Nots(k, n)))) <==> k <= 16
    ensures FitsE(Disj(Single(Lone(Number(0))), Conj(Lone(Number(0)), Nots(k, n)))) <==> k <= 14
  {
    NotsFit(k, n, 0);
    NotsFit(k, n, 2);
    var t := Conj(Lone(Number(0)), Nots(k, n));
    assert FitsT(t, 1) <==> FitsF(Nots(k, n), 2);
  }

  /** The stack between operands: empty, or a single pending |. */
  predicate Loose(stack: seq<Op>) {
    stack == [] || stack == [Or]
  }

  lemma {:induction false} PopOne(stack: seq<Op>, op: Op, out: seq<Node>)
    ensures op != Or ==> PopTight(stack + [op], out) == PopTight(stack, out + [Operator(op)])
    ensures Loose(stack) ==> PopTight(stack, out) == (stack, out)
  {
    assert (stack + [op])[..|stack + [op]| - 1] == stack;
  }

  lemma {:induction false} FactorIsTranslated(f: Factor, rest: seq<Token>, stack: seq<Op>, out: seq<Node>)
    requires |stack| <= STACKDEPTH
    ensures Pol(YieldF(f) + rest, stack, out) ==
            if !FitsF(f, |stack|) then TooComplex
            else
              var (s, o) := PopTight(stack, out + Post(TreeF(f)));
              Pol(rest, s, o)
    decreases f
  {
    match f
    case Number(n) =>
      assert ([Val(n)] + rest)[1..] == rest;
    case Negated(g) =>
      assert YieldF(f) + rest == [Opr(Not)] + (YieldF(g) + rest);
      assert ([Opr(Not)] + (YieldF(g) + rest))[1..] == YieldF(g) + rest;
      if |stack| < STACKDEPTH {
        FactorIsTranslated(g, rest, stack + [Not], out);
        PopOne(stack, Not, out + Post(TreeF(g)));
        assert out + Post(TreeF(f)) == (out + Post(TreeF(g))) + [Operator(Not)];
      }
    case Paren(e) =>
      var tail := YieldE(e) + ([Close] + rest);
      assert YieldF(f) + rest == [Open] + tail;
      assert ([Open] + tail)[1..] == tail;
      ExprIsTranslated(e, [Close] + rest, out);
      assert ([Close] + rest)[1..] == rest;
      ClosePhrase(e, out);
  }

  lemma {:induction false} TermIsTranslated(t: Term, rest: seq<Token>, stack: seq<Op>, out: seq<Node>)
    requires Loose(stack)
    ensures Pol(YieldT(t) + rest, stack, out) ==
            if !FitsT(t, |stack|) then TooComplex
            else Pol(rest, stack, out + Post(TreeT(t)))
    decreases t
  {
    match t
    case Lone(f) =>
      FactorIsTranslated(f, rest, stack, out);
      PopOne(stack, Not, out + Post(TreeF(f)));
    case Conj(u, f) =>
      var tail := YieldF(f) + rest;
      assert YieldT(t) + rest == YieldT(u) + ([Opr(And)] + tail);
      TermIsTranslated(u, [Opr(And)] + tail, stack, out);
      assert ([Opr(And)] + tail)[1..] == tail;
      FactorIsTranslated(f, rest, stack + [And], out + Post(TreeT(u)));
      PopOne(stack, And, out + Post(TreeT(u)) + Post(TreeF(f)));
      PopOne(stack, And, out + Post(TreeT(u)) + Post(TreeF(f)) + [Operator(And)]);
      assert out + Post(TreeT(t)) == out + Post(TreeT(u)) + Post(TreeF(f)) + [Operator(And)];
  }

  /** What is on the stack and what is emitted when the whole of e has been read. */
  function Pending(e: Expr): seq<Op> {
    if e.Disj? then [Or] else []
  }

  function Emitted(e: Expr): seq<Node> {
    match e
    case Single(t) => Post(TreeT(t))
    case Disj(e, t) => Post(TreeE(e)) + Post(TreeT(t))
  }

  lemma {:induction false} ClosePhrase(e: Expr, out: seq<Node>)
    ensures PopAll(Pending(e), out + Emitted(e)) == out + Post(TreeE(e))
  {
    if e.Disj? {
      assert [Or][..0] == [];
      assert PopAll([Or], out + Emitted(e)) == PopAll([], out + Emitted(e) + [Operator(Or)]);
    }
  }

  lemma {:induction false} ExprIsTranslated(e: Expr, rest: seq<Token>, out: seq<Node>)
    ensures Pol(YieldE(e) + rest, [], out) ==
            if !FitsE(e) then TooComplex
            else Pol(rest, Pending(e), out + Emitted(e))
    decreases e
  {
    match e
    case Single(t) =>
      TermIsTranslated(t, rest, [], out);
    case Disj(d, t) =>
      var tail := YieldT(t) + rest;
      assert YieldE(e) + rest == YieldE(d) + ([Opr(Or)] + tail);
      ExprIsTranslated(d, [Opr(Or)] + tail, out);
      assert ([Opr(Or)] + tail)[1..] == tail;
      if FitsE(d) {
        ClosePhrase(d, out);
        assert out + Post(TreeE(d)) == if d.Disj? then out + Emitted(d) + [Operator(Or)] else out + Emitted(d);
        assert [] + [Or] == [Or];
        TermIsTranslated(t, rest, [Or], out + Post(TreeE(d)));
        assert out + Emitted(e) == out + Post(TreeE(d)) + Post(TreeT(t));
      }
  }

  /** A whole query: the phrase followed by End. */
  lemma {:induction false} PhraseIsTranslated(e: Expr)
    ensures Pol(YieldE(e) + [End], [], []) == if FitsE(e) then Done([End], Post(TreeE(e))) else TooComplex
  {
    ExprIsTranslated(e, [End], []);
    ClosePhrase(e, []);
    assert [] + Post(TreeE(e)) == Post(TreeE(e));
  }

  // ----- Nothing else is translated

  /** What the lexer guarantees of its stream: operands and operators alternate, and parentheses balance. */
  predicate Shape(toks: seq<Token>, operand: bool, count: nat)
    decreases |toks|
  {
    toks != [] &&
    match toks[0]
    case Err => |toks| == 1
    case End => !operand && count == 0 && |toks| == 1
    case Val(_) => operand && Shape(toks[1..], false, count)
    case Opr(op) => operand == (op == Not) && Shape(toks[1..], true, count)
    case Open => operand && Shape(toks[1..], true, count + 1)
    case Close => !operand && 0 < count && Shape(toks[1..], false, count - 1)
  }

  function Last(toks: seq<Token>): Token
    requires toks != []
  {
    toks[|toks| - 1]
  }

  lemma {:induction false} ShapeHasEnd(toks: seq<Token>, operand: bool, count: nat)
    requires Shape(toks, operand, count)
    ensures Last(toks) == Err || Last(toks) == End
    decreases |toks|
  {
    if |toks| > 1 {
      var t := toks[0];
      ShapeHasEnd(toks[1..], !(t.Val? || t.Close?), if t.Open? then count + 1 else if t.Close? then count - 1 else count);
    }
  }

  /** Alternation and balance are all the grammar asks: such a stream is a factor and a remainder. */
  lemma {:induction false} ReadFactor(toks: seq<Token>, count: nat) returns (f: Factor, rest: seq<Token>)
    requires Shape(toks, true, count) && Last(toks) == End
    ensures toks == YieldF(f) + rest && rest != [] && |rest| < |toks|
    ensures Shape(rest, false, count) && Last(rest) == End
    decreases |toks|, 0
  {
    var tail := toks[1..];
    assert toks == [toks[0]] + tail;
    match toks[0]
    case Val(n) =>
      f, rest := Number(n), tail;
    case Opr(_) =>
      var g;
      g, rest := ReadFactor(tail, count);
      f := Negated(g);
      assert [Opr(Not)] + (YieldF(g) + rest) == YieldF(f) + rest;
    case Open =>
      var e, after := ReadExpr(tail, count + 1);
      assert after == [Close] + after[1..];
      f, rest := Paren(e), after[1..];
      assert [Open] + (YieldE(e) + ([Close] + rest)) == YieldF(f) + rest;
  }

  lemma {:induction false} ReadTerm(toks: seq<Token>, count: nat) returns (t: Term, rest: seq<Token>)
    requires Shape(toks, true, count) && Last(toks) == End
    ensures toks == YieldT(t) + rest && rest != [] && |rest| < |toks|
    ensures Shape(rest, false, count) && Last(rest) == End && rest[0] != Opr(And)
    decreases |toks|, 1
  {
    var f;
    f, rest := ReadFactor(toks, count);
    t := Lone(f);
    while rest[0] == Opr(And)
      invariant toks == YieldT(t) + rest && rest != [] && |rest| < |toks|
      invariant Shape(rest, false, count) && Last(rest) == End
      decreases |rest|
    {
      var after;
      f, after := ReadFactor(rest[1..], count);
      assert YieldT(t) + rest == YieldT(t) + [Opr(And)] + YieldF(f) + after;
      t, rest := Conj(t, f), after;
    }
  }

  lemma {:induction false} ReadExpr(toks: seq<Token>, count: nat) returns (e: Expr, rest: seq<Token>)
    requires Shape(toks, true, count) && Last(toks) == End
    ensures toks == YieldE(e) + rest && rest != [] && |rest| < |toks|
    ensures Shape(rest, false, count) && Last(rest) == End && rest[0] == if count == 0 then End else Close
    decreases |toks|, 2
  {
    var t;
    t, rest := ReadTerm(toks, count);
    e := Single(t);
    while rest[0] == Opr(Or)
      invariant toks == YieldE(e) + rest && rest != [] && |rest| < |toks|
      invariant Shape(rest, false, count) && Last(rest) == End && rest[0] != Opr(And)
      decreases |rest|
    {
      var after;
      t, after := ReadTerm(rest[1..], count);
      assert YieldE(e) + rest == YieldE(e) + [Opr(Or)] + YieldT(t) + after;
      e, rest := Disj(e, t), after;
    }
  }

  /** A translation that finishes has read up to the matching Close, or all of the stream up to End. */
  lemma {:induction false} DoneReadsToEnd(toks: seq<Token>, operand: bool, count: nat, stack: seq<Op>, out: seq<Node>)
    requires Shape(toks, operand, count) && Pol(toks, stack, out).Done?
    ensures var rest := Pol(toks, stack, out).rest;
            && rest != [] && Last(rest) == Last(toks)
            && if count == 0 then rest == [End] else Shape(rest, false, count - 1)
    decreases |toks|
  {
    var tail := toks[1..];
    match toks[0]
    case Val(n) =>
      var (s, o) := PopTight(stack, out + [Value(n)]);
      DoneReadsToEnd(tail, false, count, s, o);
    case Opr(op) =>
      if stack != [] && op == Or {
        DoneReadsToEnd(tail, true, count, stack, out + [Operator(Or)]);
      } else {
        DoneReadsToEnd(tail, true, count, stack + [op], out);
      }
    case Open =>
      DoneReadsToEnd(tail, true, count + 1, [], out);
      var inner := Pol(tail, [], out);
      var (s, o) := PopTight(stack, inner.out);
      DoneReadsToEnd(inner.rest, false, count, s, o);
    case Close =>
    case End =>
  }

  /** Whatever is accepted is a phrase of the grammar, and is translated as that phrase. */
  lemma {:induction false} AcceptedIsPhrase(toks: seq<Token>) returns (e: Expr)
    requires Shape(toks, true, 0) && Pol(toks, [], []).Done?
    ensures toks == YieldE(e) + [End] && FitsE(e) && Pol(toks, [], []) == Done([End], Post(TreeE(e)))
  {
    DoneReadsToEnd(toks, true, 0, [], []);
    var rest;
    e, rest := ReadExpr(toks, 0);
    assert rest == [End];
    PhraseIsTranslated(e);
  }

  /** The translation of a lexed stream: its one phrase if it has one, an error otherwise. */
  lemma {:induction false} TranslationIsExact(toks: seq<Token>)
    requires Shape(toks, true, 0)
    ensures forall e :: toks == YieldE(e) + [End] ==>
              Pol(toks, [], []) == if FitsE(e) then Done([End], Post(TreeE(e))) else TooComplex
    ensures Pol(toks, [], []).Done? ==> exists e :: toks == YieldE(e) + [End] && FitsE(e)
    ensures Pol(toks, [], []).SyntaxError? ==> Last(toks) == Err
  {
    forall e | toks == YieldE(e) + [End]
      ensures Pol(toks, [], []) == if FitsE(e) then Done([End], Post(TreeE(e))) else TooComplex
    {
      PhraseIsTranslated(e);
    }
    if Pol(toks, [], []).Done? {
      var e := AcceptedIsPhrase(toks);
    }
    if Last(toks) != Err {
      ShapeHasEnd(toks, true, 0);
      var e, rest := ReadExpr(toks, 0);
      assert rest == [End];
      PhraseIsTranslated(e);
    }
  }
}
