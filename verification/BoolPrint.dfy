/**
  The output function of contrib/intarray/_int_bool.c: infix prints a stored
  query, and what it prints is read back as the same query, up to the
  association of &.
 */
module BoolPrint {
  import opened Alloc
  import opened BoolQuery
  import opened BoolParser
  import opened BoolSpelling
  import opened BoolEval

  // ----- Numbers

  function DigitChar(d: nat): char
    requires d < 10
  {
    '0' + d as char
  }

  function Digits(n: nat): string {
    if n < 10 then [DigitChar(n)] else Digits(n / 10) + [DigitChar(n % 10)]
  }

  /** What sprintf writes for %d. */
  function Dec(n: int): string {
    if n < 0 then "-" + Digits(-n) else Digits(n)
  }

  lemma {:induction false} DigitsWrite(n: nat)
    ensures Numeric(Digits(n)) && Positional(Digits(n), 10) == n && Digits(n) != "" && (Digits(n)[0] == '0' <==> n == 0)
  {
    if n >= 10 {
      DigitsWrite(n / 10);
      assert Digits(n)[..|Digits(n)| - 1] == Digits(n / 10);
    }
  }

  function Ten(k: nat): nat {
    if k == 0 then 1 else 10 * Ten(k - 1)
  }

  lemma {:induction false} DigitsLength(n: nat, k: nat)
    requires 0 < k && n < Ten(k)
    ensures |Digits(n)| <= k
  {
    if n >= 10 {
      DigitsLength(n / 10, k - 1);
    }
  }

  /** Without a zero in front, except for zero itself, and so in decimal. */
  predicate NoZeroInFront(w: string) {
    w == "0" || (w != "" && w[0] != '0' && (w[0] == '-' ==> |w| > 1 && w[1] != '0'))
  }

  /** What is printed is a numeral for the number, in decimal, and strtol reads it so. */
  lemma {:induction false} DecReadsBack(n: int)
    requires IsInt32(n)
    ensures Numeral(Dec(n), n) && NoZeroInFront(Dec(n)) && Strtol(Dec(n)) == n && |Dec(n)| <= 11
  {
    var a: nat := if n < 0 then -n else n;
    var ds := Digits(a);
    DigitsWrite(a);
    assert Ten(10) == 10000000000 by {
      assert Ten(5) == 100000;
    }
    DigitsLength(a, 10);
    if n < 0 {
      assert Dec(n)[1..] == ds;
    } else if n == 0 {
      assert OctalTo("0", 1) && "0"[..1] == "0" && Positional("0", 8) == 0;
    }
    NumeralIsRead(Dec(n), n);
  }

  // ----- What is printed

  function Print(t: Tree, first: bool): string
  {
    match t
    case Leaf(n) => Dec(n)
    case Neg(u) => "!" + (if u.Leaf? then Print(u, false) else "( " + Print(u, true) + " )")
    case Join(both, l, r) =>
      var body := Print(l, false) + (if both then " & " else " | ") + Print(r, false);
      if !both && !first then "( " + body + " )" else body
  }

  /** The tokens of what is printed. */
  function Toks(t: Tree, first: bool): seq<Token>
  {
    match t
    case Leaf(n) => [Val(n)]
    case Neg(u) => [Opr(Not)] + (if u.Leaf? then Toks(u, false) else [Open] + Toks(u, true) + [Close])
    case Join(both, l, r) =>
      var body := Toks(l, false) + [Opr(if both then And else Or)] + Toks(r, false);
      if !both && !first then [Open] + body + [Close] else body
  }

  predicate AllInt32(t: Tree) {
    match t
    case Leaf(n) => IsInt32(n)
    case Neg(u) => AllInt32(u)
    case Join(_, l, r) => AllInt32(l) && AllInt32(r)
  }

  // ----- How it is laid out

  function Enclosed(gap: string, xs: seq<Piece>): seq<Piece> {
    [Piece(gap, "(", Open)] + xs + [Piece(" ", ")", Close)]
  }

  /** The pieces of what is printed, behind the given gap. */
  function Layout(t: Tree, first: bool, gap: string): seq<Piece>
    decreases t, 1
  {
    match t
    case Leaf(n) => [Piece(gap, Dec(n), Val(n))]
    case Neg(u) =>
      [Piece(gap, "!", Opr(Not))] + (if u.Leaf? then Layout(u, false, "") else Enclosed("", Layout(u, true, " ")))
    case Join(both, l, r) =>
      if !both && !first then Enclosed(gap, JoinLayout(t, " ")) else JoinLayout(t, gap)
  }

  function JoinLayout(t: Tree, gap: string): seq<Piece>
    requires t.Join?
    decreases t, 0
  {
    Layout(t.l, false, gap) + [Piece(" ", if t.both then "&" else "|", Opr(if t.both then And else Or))] + Layout(t.r, false, " ")
  }

  lemma {:induction false} EnclosedPrints(gap: string, xs: seq<Piece>, x: string)
    requires PiecesText(xs) == " " + x
    ensures PiecesText(Enclosed(gap, xs)) == gap + ("( " + x + " )")
    ensures TokensOf(Enclosed(gap, xs)) == [Open] + TokensOf(xs) + [Close]
  {
    var a, b := Piece(gap, "(", Open), Piece(" ", ")", Close);
    PiecesConcat([a] + xs, [b]);
    PiecesConcat([a], xs);
    OnePiece(a);
    OnePiece(b);
    assert gap + "(" + (" " + x) + (" " + ")") == gap + ("( " + x + " )");
  }

  lemma {:induction false} LayoutPrints(t: Tree, first: bool, gap: string)
    ensures PiecesText(Layout(t, first, gap)) == gap + Print(t, first) && TokensOf(Layout(t, first, gap)) == Toks(t, first)
    decreases t, 1
  {
    match t
    case Leaf(n) =>
      OnePiece(Piece(gap, Dec(n), Val(n)));
    case Neg(u) =>
      NegPrints(u, first, gap);
    case Join(both, l, r) =>
      if !both && !first {
        JoinPrints(t, " ");
        EnclosedPrints(gap, JoinLayout(t, " "), Print(t, true));
      } else {
        JoinPrints(t, gap);
      }
  }

  lemma {:induction false} NotInFront(gap: string, xs: seq<Piece>, x: string)
    requires PiecesText(xs) == x
    ensures PiecesText([Piece(gap, "!", Opr(Not))] + xs) == gap + ("!" + x)
    ensures TokensOf([Piece(gap, "!", Opr(Not))] + xs) == [Opr(Not)] + TokensOf(xs)
  {
    PiecesConcat([Piece(gap, "!", Opr(Not))], xs);
    OnePiece(Piece(gap, "!", Opr(Not)));
    assert gap + "!" + x == gap + ("!" + x);
  }

  lemma {:induction false} NegPrints(u: Tree, first: bool, gap: string)
    ensures var t := Neg(u); PiecesText(Layout(t, first, gap)) == gap + Print(t, first) && TokensOf(Layout(t, first, gap)) == Toks(t, first)
    decreases u, 2
  {
    if u.Leaf? {
      LayoutPrints(u, false, "");
      assert "" + Print(u, false) == Print(u, false);
      NotInFront(gap, Layout(u, false, ""), Print(u, false));
    } else {
      var xs, x := Layout(u, true, " "), Print(u, true);
      LayoutPrints(u, true, " ");
      EnclosedPrints("", xs, x);
      assert "" + ("( " + x + " )") == "( " + x + " )";
      NotInFront(gap, Enclosed("", xs), "( " + x + " )");
    }
  }

  lemma {:induction false} JoinPrints(t: Tree, gap: string)
    requires t.Join?
    ensures PiecesText(JoinLayout(t, gap)) == gap + Print(t, true) && TokensOf(JoinLayout(t, gap)) == Toks(t, true)
    decreases t, 0
  {
    var op := if t.both then "&" else "|";
    var x := Piece(" ", op, Opr(if t.both then And else Or));
    var a, b, l, r := Layout(t.l, false, gap), Layout(t.r, false, " "), Print(t.l, false), Print(t.r, false);
    LayoutPrints(t.l, false, gap);
    LayoutPrints(t.r, false, " ");
    PiecesConcat(a + [x], b);
    PiecesConcat(a, [x]);
    OnePiece(x);
    InfixText(gap, l, op, r);
  }

  lemma {:induction false} InfixText(gap: string, l: string, op: string, r: string)
    requires |op| == 1
    ensures (gap + l) + (" " + op) + (" " + r) == gap + (l + [' ', op[0], ' '] + r)
  {
  }

  /** Each token is written, numbers without a zero in front, and a space goes before each but the first and those behind a !. */
  ghost predicate Tidy(xs: seq<Piece>, gap: string) {
    && xs != [] && xs[0].gap == gap
    && (forall i | 0 < i < |xs| :: xs[i].gap == if xs[i - 1].tok == Opr(Not) then "" else " ")
    && (forall i | 0 <= i < |xs| :: WritesToken(xs[i].word, xs[i].tok) && (xs[i].tok.Val? ==> NoZeroInFront(xs[i].word)))
  }

  lemma {:induction false} TidyConcat(a: seq<Piece>, b: seq<Piece>, gap: string)
    requires Tidy(a, gap) && Tidy(b, if a[|a| - 1].tok == Opr(Not) then "" else " ")
    ensures Tidy(a + b, gap) && (a + b)[|a + b| - 1] == b[|b| - 1]
  {
  }

  lemma {:induction false} TidyEnclosed(gap: string, xs: seq<Piece>)
    requires Tidy(xs, " ") && xs[|xs| - 1].tok != Opr(Not)
    ensures Tidy(Enclosed(gap, xs), gap) && Enclosed(gap, xs)[|xs| + 1].tok == Close
  {
    var a, b := Piece(gap, "(", Open), Piece(" ", ")", Close);
    TidyConcat([a], xs, gap);
    TidyConcat([a] + xs, [b], gap);
  }

  lemma {:induction false} LayoutIsTidy(t: Tree, first: bool, gap: string)
    requires AllInt32(t)
    ensures var xs := Layout(t, first, gap); Tidy(xs, gap) && xs[|xs| - 1].tok != Opr(Not)
    decreases t, 1
  {
    match t
    case Leaf(n) =>
      DecReadsBack(n);
    case Neg(u) =>
      var x := Piece(gap, "!", Opr(Not));
      if u.Leaf? {
        LayoutIsTidy(u, false, "");
        TidyConcat([x], Layout(u, false, ""), gap);
      } else {
        LayoutIsTidy(u, true, " ");
        TidyEnclosed("", Layout(u, true, " "));
        TidyConcat([x], Enclosed("", Layout(u, true, " ")), gap);
      }
    case Join(both, l, r) =>
      if !both && !first {
        JoinIsTidy(t, " ");
        TidyEnclosed(gap, JoinLayout(t, " "));
      } else {
        JoinIsTidy(t, gap);
      }
  }

  lemma {:induction false} JoinIsTidy(t: Tree, gap: string)
    requires t.Join? && AllInt32(t)
    ensures var xs := JoinLayout(t, gap); Tidy(xs, gap) && xs[|xs| - 1].tok != Opr(Not)
    decreases t, 0
  {
    var x := Piece(" ", if t.both then "&" else "|", Opr(if t.both then And else Or));
    LayoutIsTidy(t.l, false, gap);
    LayoutIsTidy(t.r, false, " ");
    TidyConcat(Layout(t.l, false, gap), [x], gap);
    TidyConcat(Layout(t.l, false, gap) + [x], Layout(t.r, false, " "), gap);
  }

  lemma {:induction false} TidyIsWritten(xs: seq<Piece>)
    requires Tidy(xs, "")
    ensures Writes(PiecesText(xs), TokensOf(xs))
  {
    forall i | 0 <= i < |xs|
      ensures Blank(xs[i].gap)
    {
      if i > 0 {
        assert xs[i].gap == if xs[i - 1].tok == Opr(Not) then "" else " ";
      }
    }
    assert Ends("") by {
      assert ""[..0] == "";
    }
    assert PiecesText(xs) == PiecesText(xs) + "";
  }

  // ----- What is printed is a phrase of the grammar

  function Append(a: Term, b: Term): Term {
    match b
    case Lone(f) => Conj(a, f)
    case Conj(t, f) => Conj(Append(a, t), f)
  }

  /** The phrase that Print spells when nothing encloses t. */
  function ExprOf(t: Tree): Expr
    decreases t, if t.Join? && !t.both then 0 else 2
  {
    if t.Join? && !t.both then Disj(Single(TermOf(t.l)), TermOf(t.r)) else Single(TermOf(t))
  }

  /** The phrase that Print spells when t is an operand. */
  function TermOf(t: Tree): Term
    decreases t, 1
  {
    match t
    case Leaf(n) => Lone(Number(n))
    case Neg(u) => Lone(Negated(if u.Leaf? then Number(u.n) else Paren(ExprOf(u))))
    case Join(both, l, r) => if both then Append(TermOf(l), TermOf(r)) else Lone(Paren(ExprOf(t)))
  }

  lemma {:induction false} AppendYield(a: Term, b: Term)
    ensures YieldT(Append(a, b)) == YieldT(a) + [Opr(And)] + YieldT(b)
  {
    if b.Conj? {
      AppendYield(a, b.t);
      assert YieldT(a) + [Opr(And)] + YieldT(b.t) + [Opr(And)] + YieldF(b.f) == YieldT(a) + [Opr(And)] + YieldT(b);
    }
  }

  lemma {:induction false} TermSpelled(t: Tree)
    ensures YieldT(TermOf(t)) == Toks(t, false)
    decreases t, 1
  {
    match t
    case Leaf(n) =>
    case Neg(u) =>
      if !u.Leaf? {
        ExprSpelled(u);
      }
      var g := if u.Leaf? then Number(u.n) else Paren(ExprOf(u));
      assert TermOf(t) == Lone(Negated(g)) && YieldT(Lone(Negated(g))) == [Opr(Not)] + YieldF(g);
    case Join(both, l, r) =>
      if both {
        TermSpelled(l);
        TermSpelled(r);
        AppendYield(TermOf(l), TermOf(r));
      } else {
        ExprSpelled(t);
      }
  }

  lemma {:induction false} ExprSpelled(t: Tree)
    ensures YieldE(ExprOf(t)) == Toks(t, true)
    decreases t, if t.Join? && !t.both then 0 else 2
  {
    if t.Join? && !t.both {
      TermSpelled(t.l);
      TermSpelled(t.r);
    } else {
      TermSpelled(t);
    }
  }

  // ----- Parentheses

  predicate SparingE(e: Expr) {
    match e
    case Single(t) => SparingT(t)
    case Disj(d, t) => SparingE(d) && SparingT(t)
  }

  predicate SparingT(t: Term) {
    match t
    case Lone(f) => SparingF(f, false)
    case Conj(u, f) => SparingT(u) && SparingF(f, false)
  }

  /** Parentheses are put around a disjunction, and behind a ! around everything but a number. */
  predicate SparingF(f: Factor, negated: bool) {
    match f
    case Number(_) => true
    case Negated(g) => SparingF(g, true)
    case Paren(e) => SparingE(e) && (e.Disj? || (negated && !(e.t.Lone? && e.t.f.Number?)))
  }

  lemma {:induction false} AppendSparing(a: Term, b: Term)
    requires SparingT(a) && SparingT(b)
    ensures SparingT(Append(a, b))
  {
    if b.Conj? {
      AppendSparing(a, b.t);
    }
  }

  lemma {:induction false} PrintedSparing(t: Tree)
    ensures SparingT(TermOf(t)) && SparingE(ExprOf(t))
    decreases t
  {
    match t
    case Leaf(n) =>
    case Neg(u) =>
      PrintedSparing(u);
      var g := if u.Leaf? then Number(u.n) else Paren(ExprOf(u));
      assert TermOf(t) == Lone(Negated(g));
      if !u.Leaf? {
        NotANumber(u);
      }
    case Join(both, l, r) =>
      PrintedSparing(l);
      PrintedSparing(r);
      if both {
        AppendSparing(TermOf(l), TermOf(r));
      } else {
        assert SparingE(ExprOf(t)) && TermOf(t) == Lone(Paren(ExprOf(t)));
      }
  }

  lemma {:induction false} NotANumber(u: Tree)
    requires !u.Leaf?
    ensures var e := ExprOf(u); e.Disj? || !(e.t.Lone? && e.t.f.Number?)
  {
    if u.Join? && u.both {
      assert Append(TermOf(u.l), TermOf(u.r)).Conj?;
    }
  }

  /**
    How a query is printed: as a phrase that is the query leaning left, with no more
    parentheses than that takes or the printer always puts, one space between tokens
    except behind !, and numbers in decimal.
   */
  lemma {:induction false} PrintIsTidy(t: Tree) returns (xs: seq<Piece>)
    requires AllInt32(t)
    ensures PiecesText(xs) == Print(t, true) && TokensOf(xs) == YieldE(ExprOf(t)) && SparingE(ExprOf(t)) && TreeE(ExprOf(t)) == LeanLeft(t)
    ensures xs != [] && xs[0].gap == ""
    ensures forall i | 0 < i < |xs| :: xs[i].gap == if xs[i - 1].tok == Opr(Not) then "" else " "
    ensures forall i | 0 <= i < |xs| :: WritesToken(xs[i].word, xs[i].tok) && (xs[i].tok.Val? ==> NoZeroInFront(xs[i].word))
    ensures Writes(Print(t, true), YieldE(ExprOf(t)))
  {
    xs := Layout(t, true, "");
    LayoutPrints(t, true, "");
    LayoutIsTidy(t, true, "");
    TidyIsWritten(xs);
    ExprSpelled(t);
    PrintedSparing(t);
    TermLeansLeft(t);
  }

  // ----- It never exhausts the operator stack

  /** Every factor of the term fits on an almost full stack. */
  predicate Shallow(t: Term) {
    match t
    case Lone(f) => FitsF(f, STACKDEPTH - 1)
    case Conj(t, f) => Shallow(t) && FitsF(f, STACKDEPTH - 1)
  }

  lemma {:induction false} ShallowerFits(f: Factor, d: nat, d': nat)
    requires d' <= d && FitsF(f, d)
    ensures FitsF(f, d')
  {
    if f.Negated? {
      ShallowerFits(f.f, d + 1, d' + 1);
    }
  }

  lemma {:induction false} ShallowFits(t: Term, d: nat)
    requires Shallow(t) && d < STACKDEPTH - 1
    ensures FitsT(t, d)
  {
    match t
    case Lone(f) =>
      ShallowerFits(f, STACKDEPTH - 1, d);
    case Conj(u, f) =>
      ShallowFits(u, d);
      ShallowerFits(f, STACKDEPTH - 1, d + 1);
  }

  lemma {:induction false} AppendShallow(a: Term, b: Term)
    requires Shallow(a) && Shallow(b)
    ensures Shallow(Append(a, b))
  {
    if b.Conj? {
      AppendShallow(a, b.t);
    }
  }

  lemma {:induction false} PrintedFits(t: Tree)
    ensures Shallow(TermOf(t)) && FitsE(ExprOf(t))
    decreases t
  {
    match t {
    case Leaf(n) =>
    case Neg(u) =>
      PrintedFits(u);
      var g := if u.Leaf? then Number(u.n) else Paren(ExprOf(u));
      assert TermOf(t) == Lone(Negated(g)) && FitsF(g, STACKDEPTH);
    case Join(both, l, r) =>
      PrintedFits(l);
      PrintedFits(r);
      if both {
        AppendShallow(TermOf(l), TermOf(r));
      } else {
        ShallowFits(TermOf(l), 0);
        ShallowFits(TermOf(r), 1);
        assert FitsE(ExprOf(t)) && TermOf(t) == Lone(Paren(ExprOf(t)));
      }
    }
    ShallowFits(TermOf(t), 0);
  }

  // ----- What is read back

  /** The conjunction of two trees, & leaning left over the right one. */
  function Graft(a: Tree, b: Tree): Tree {
    if b.Join? && b.both then Join(true, Graft(a, b.l), b.r) else Join(true, a, b)
  }

  /** The tree with every chain of & associated to the left. */
  function LeanLeft(t: Tree): Tree {
    match t
    case Leaf(_) => t
    case Neg(u) => Neg(LeanLeft(u))
    case Join(both, l, r) => if both then Graft(LeanLeft(l), LeanLeft(r)) else Join(false, LeanLeft(l), LeanLeft(r))
  }

  /** No factor of the term is a parenthesised conjunction. */
  predicate Flat(t: Term) {
    match t
    case Lone(f) => !(TreeF(f).Join? && TreeF(f).both)
    case Conj(t, f) => Flat(t) && !(TreeF(f).Join? && TreeF(f).both)
  }

  lemma {:induction false} AppendGrafts(a: Term, b: Term)
    requires Flat(a) && Flat(b)
    ensures TreeT(Append(a, b)) == Graft(TreeT(a), TreeT(b)) && Flat(Append(a, b))
  {
    if b.Conj? {
      AppendGrafts(a, b.t);
    }
  }

  lemma {:induction false} TermLeansLeft(t: Tree)
    ensures TreeT(TermOf(t)) == LeanLeft(t) && Flat(TermOf(t))
    ensures TreeE(ExprOf(t)) == LeanLeft(t)
    decreases t
  {
    match t
    case Leaf(n) =>
    case Neg(u) =>
      TermLeansLeft(u);
      var g := if u.Leaf? then Number(u.n) else Paren(ExprOf(u));
      assert TermOf(t) == Lone(Negated(g)) && TreeF(g) == LeanLeft(u);
    case Join(both, l, r) =>
      TermLeansLeft(l);
      TermLeansLeft(r);
      if both {
        AppendGrafts(TermOf(l), TermOf(r));
      } else {
        assert TreeE(ExprOf(t)) == LeanLeft(t) && TermOf(t) == Lone(Paren(ExprOf(t)));
      }
  }

  lemma {:induction false} GraftMeans(a: Tree, b: Tree, member: int -> bool)
    ensures Meaning(Graft(a, b), member) == (Meaning(a, member) && Meaning(b, member))
    ensures Size(Graft(a, b)) == Size(a) + Size(b) + 1
    decreases b
  {
    if b.Join? && b.both {
      GraftMeans(a, b.l, member);
    }
  }

  /** Leaning left keeps the meaning and the number of items. */
  lemma {:induction false} LeanLeftMeans(t: Tree, member: int -> bool)
    ensures Meaning(LeanLeft(t), member) == Meaning(t, member)
    ensures Size(LeanLeft(t)) == Size(t)
  {
    match t
    case Leaf(n) =>
    case Neg(u) =>
      LeanLeftMeans(u, member);
    case Join(both, l, r) =>
      LeanLeftMeans(l, member);
      LeanLeftMeans(r, member);
      if both {
        GraftMeans(LeanLeft(l), LeanLeft(r), member);
      }
  }

  /**
    Printing a query and reading the text again gives the query with its &
    chains associated to the left: same meaning, same number of items.
   */
  lemma {:induction false} PrintReadsBack(t: Tree, r: Parsed)
    requires AllInt32(t) && Size(t) <= QUERYTYPEMAXITEMS
    requires ReadsAs(Print(t, true), r)
    ensures r == Query(Linked(LeanLeft(t)))
    ensures forall member :: Meaning(LeanLeft(t), member) == Meaning(t, member)
  {
    var xs := PrintIsTidy(t);
    PrintedFits(t);
    forall member ensures Meaning(LeanLeft(t), member) == Meaning(t, member) {
      LeanLeftMeans(t, member);
    }
    LeanLeftMeans(t, n => true);
    assert r == ParsedAs(ExprOf(t));
  }

  // ----- A query whose link is wrong

  /** A balanced tree of |, 2^k values wide. */
  function Balanced(k: nat): Tree {
    if k == 0 then Leaf(1) else Join(false, Balanced(k - 1), Balanced(k - 1))
  }

  const LEVELS: nat := 14

  function Pow2(k: nat): nat {
    if k == 0 then 1 else 2 * Pow2(k - 1)
  }

  lemma {:induction false} BalancedShape(k: nat)
    ensures Size(Balanced(k)) == 2 * Pow2(k) - 1 && AllInt32(Balanced(k)) && LeanLeft(Balanced(k)) == Balanced(k)
  {
    if k != 0 {
      BalancedShape(k - 1);
    }
  }

  /** Reading the text a query is printed as gives the query leaning left, and nothing else. */
  lemma {:induction false} PrintedTextReadsAs(t: Tree)
    requires AllInt32(t) && Size(t) <= QUERYTYPEMAXITEMS
    ensures forall r :: ReadsAs(Print(t, true), r) <==> r == Query(Linked(LeanLeft(t)))
  {
    var xs := PrintIsTidy(t);
    ReadsAsPhrase(Print(t, true), ExprOf(t));
    PrintReadsBack(t, ParsedAs(ExprOf(t)));
    forall r | ReadsAs(Print(t, true), r) ensures r == Query(Linked(LeanLeft(t))) {
      PrintReadsBack(t, r);
    }
  }

  /**
    The text 0 & !( ... ), with a balanced tree of 2^14 values in the parentheses, is
    no more than 16 operators deep. It is read as a query whose last link points
    forward, out of the query: its right operand has 2^15 items.
   */
  lemma {:induction false} LinkCanLeaveTheQuery()
    ensures var t := Join(true, Leaf(0), Neg(Balanced(LEVELS)));
            && (forall r :: ReadsAs(Print(t, true), r) <==> r == Query(Linked(t)))
            && !LinksFit(t) && Linked(t)[Size(t) - 1].left == 0x7FFF
            && Size(t) - 1 + Linked(t)[Size(t) - 1].left >= Size(t)
  {
    var k := LEVELS;
    BalancedShape(k);
    assert Pow2(k) == 0x4000 by {
      assert Pow2(14) == 0x4000;
    }
    LongOperand(Balanced(k));
  }

  lemma {:induction false} LongOperand(b: Tree)
    requires Size(b) == 0x7FFF && AllInt32(b) && LeanLeft(b) == b
    ensures var t := Join(true, Leaf(0), Neg(b));
            && (forall r :: ReadsAs(Print(t, true), r) <==> r == Query(Linked(t)))
            && !LinksFit(t) && Linked(t)[Size(t) - 1].left == 0x7FFF
            && Size(t) - 1 + Linked(t)[Size(t) - 1].left >= Size(t)
  {
    var t := Join(true, Leaf(0), Neg(b));
    assert LeanLeft(t) == t;
    PrintedTextReadsAs(t);
  }

  ghost predicate ValuesFit(toks: seq<Token>) {
    forall k | 0 <= k < |toks| :: toks[k].Val? ==> IsInt32(toks[k].n)
  }

  /** Only 32-bit numbers can be written. */
  lemma {:induction false} WrittenValuesFit(xs: seq<Piece>)
    requires PiecesOk(xs)
    ensures ValuesFit(TokensOf(xs))
  {
    if xs != [] {
      WrittenValuesFit(xs[1..]);
    }
  }

  lemma {:induction false} PartsFit(a: seq<Token>, b: seq<Token>)
    requires ValuesFit(a + b)
    ensures ValuesFit(a) && ValuesFit(b)
  {
    forall k | 0 <= k < |a| ensures a[k].Val? ==> IsInt32(a[k].n) {
      assert (a + b)[k] == a[k];
    }
    forall k | 0 <= k < |b| ensures b[k].Val? ==> IsInt32(b[k].n) {
      assert (a + b)[|a| + k] == b[k];
    }
  }

  lemma {:induction false} FactorFits(f: Factor)
    requires ValuesFit(YieldF(f))
    ensures AllInt32(TreeF(f))
    decreases f
  {
    match f
    case Number(n) =>
      assert YieldF(f)[0] == Val(n);
    case Negated(g) =>
      PartsFit([Opr(Not)], YieldF(g));
      FactorFits(g);
    case Paren(e) =>
      PartsFit([Open] + YieldE(e), [Close]);
      PartsFit([Open], YieldE(e));
      ExprFits(e);
  }

  lemma {:induction false} TermFits(t: Term)
    requires ValuesFit(YieldT(t))
    ensures AllInt32(TreeT(t))
    decreases t
  {
    match t
    case Lone(f) =>
      FactorFits(f);
    case Conj(u, f) =>
      PartsFit(YieldT(u) + [Opr(And)], YieldF(f));
      PartsFit(YieldT(u), [Opr(And)]);
      TermFits(u);
      FactorFits(f);
  }

  lemma {:induction false} ExprFits(e: Expr)
    requires ValuesFit(YieldE(e))
    ensures AllInt32(TreeE(e))
    decreases e
  {
    match e
    case Single(t) =>
      TermFits(t);
    case Disj(d, t) =>
      PartsFit(YieldE(d) + [Opr(Or)], YieldT(t));
      PartsFit(YieldE(d), [Opr(Or)]);
      ExprFits(d);
      TermFits(t);
  }

  /** Whatever was read can be printed and read again: the second query is the first, its & leaning left. */
  lemma {:induction false} ReadPrintRead(text: string, e: Expr, again: Parsed)
    requires Writes(text, YieldE(e)) && ParsedAs(e).Query?
    requires ReadsAs(Print(TreeE(e), true), again)
    ensures again == Query(Linked(LeanLeft(TreeE(e))))
    ensures forall member :: Meaning(LeanLeft(TreeE(e)), member) == Meaning(TreeE(e), member)
  {
    var xs, tail :| PiecesOk(xs) && Ends(tail) && text == PiecesText(xs) + tail && YieldE(e) == TokensOf(xs);
    WrittenValuesFit(xs);
    ExprFits(e);
    PrintReadsBack(TreeE(e), again);
  }

  /** A query that leans left already is a fixed point: a second round trip changes nothing. */
  lemma {:induction false} LeanLeftIsStable(t: Tree)
    ensures LeanLeft(LeanLeft(t)) == LeanLeft(t)
  {
    match t
    case Leaf(n) =>
    case Neg(u) =>
      LeanLeftIsStable(u);
    case Join(both, l, r) =>
      LeanLeftIsStable(l);
      LeanLeftIsStable(r);
      if both {
        GraftIsStable(LeanLeft(l), LeanLeft(r));
      }
  }

  lemma {:induction false} GraftIsStable(a: Tree, b: Tree)
    requires LeanLeft(a) == a && LeanLeft(b) == b
    ensures LeanLeft(Graft(a, b)) == Graft(a, b)
    decreases b
  {
    if b.Join? && b.both {
      LeanRight(b);
      GraftIsStable(a, b.l);
    }
  }

  /** In a left-leaning conjunction the right side is no conjunction and both sides lean left. */
  lemma {:induction false} LeanRight(b: Tree)
    requires LeanLeft(b) == b && b.Join? && b.both
    ensures !(b.r.Join? && b.r.both) && LeanLeft(b.l) == b.l && LeanLeft(b.r) == b.r
  {
    GraftShape(LeanLeft(b.l), LeanLeft(b.r));
    LeanLeftMeans(b.r, n => true);
    LeanLeftMeans(b.l, n => true);
  }

  lemma {:induction false} GraftShape(a: Tree, b: Tree)
    ensures Graft(a, b).Join? && Graft(a, b).both && (!(b.Join? && b.both) ==> Graft(a, b).l == a && Graft(a, b).r == b)
    ensures b.Join? && b.both ==> Size(Graft(a, b).r) < Size(b) && Graft(a, b).r == b.r
  {
  }

  // ----- infix

  // ----- Room for the text

  /** The buffers double from 16 or 32 bytes up to this size. */
  const TEXT_LIMIT: nat := 0x2000_0000

  lemma {:induction false} TextBlock(first: nat, len: nat)
    requires (first == 16 || first == 32) && Grown(first, len) && len <= MAX_ALLOC
    ensures len <= TEXT_LIMIT && (MAX_ALLOC < 2 * len ==> len == TEXT_LIMIT)
  {
    TextDoubles();
    DoublingStops(first, if first == 16 then 25 else 24, len, MAX_ALLOC);
  }

  lemma {:induction false} TextDoubles()
    ensures Doubled(16, 25) == TEXT_LIMIT == Doubled(32, 24)
  {
    assert Doubled(16, 12) == 0x1_0000;
    assert Doubled(16, 25) == 0x2000_0000;
    assert Doubled(32, 12) == 0x2_0000;
    assert Doubled(32, 24) == 0x2000_0000;
  }

  /** Every write of the printer at position at and after it fits its buffer; a number is allowed for with 11 characters. */
  predicate Printable(t: Tree, first: bool, at: nat)
    decreases t, 1
  {
    match t
    case Leaf(_) => at + 12 < TEXT_LIMIT
    case Neg(u) =>
      && at + 2 < TEXT_LIMIT
      && if u.Leaf? then Printable(u, false, at + 1)
         else at + 4 < TEXT_LIMIT && Printable(u, true, at + 3) && at + |Print(u, true)| + 6 < TEXT_LIMIT
    case Join(both, l, r) =>
      if !both && !first then
        at + 3 < TEXT_LIMIT && OperandsPrintable(t, at + 2) && at + |Print(t, false)| + 1 < TEXT_LIMIT
      else OperandsPrintable(t, at)
  }

  /** The right operand has a buffer of its own. */
  predicate OperandsPrintable(t: Tree, at: nat)
    requires t.Join?
    decreases t, 0
  {
    Printable(t.r, false, 0) && Printable(t.l, false, at) && at + |Print(t, true)| + 1 < TEXT_LIMIT
  }

  /** A text is printed if it ends 12 characters before the limit, and only if it ends before the limit with its terminator. */
  lemma {:induction false} PrintableBounds(t: Tree, first: bool, at: nat)
    requires AllInt32(t)
    ensures at + |Print(t, first)| + 11 < TEXT_LIMIT ==> Printable(t, first, at)
    ensures Printable(t, first, at) ==> at + |Print(t, first)| + 1 < TEXT_LIMIT
  {
    match t
    case Leaf(n) =>
      DecReadsBack(n);
    case Neg(u) =>
      PrintableBounds(u, !u.Leaf?, at + if u.Leaf? then 1 else 3);
    case Join(both, l, r) =>
      PrintableBounds(r, false, 0);
      PrintableBounds(l, false, at);
      PrintableBounds(l, false, at + 2);
      assert Print(t, first) == if both || first then Print(t, true) else "( " + Print(t, true) + " )";
      if both || first {
        assert Printable(t, first, at) <==> OperandsPrintable(t, at);
      }
  }

  // ----- The printer

  /** The print buffer: buf holds what is written, buflen what is allocated, terminator included. */
  class Infix {
    const items: seq<Item>
    var curpol: int
    var buf: string
    var buflen: nat
    const firstlen: nat

    constructor (items: seq<Item>, curpol: int, buflen: nat)
      requires buflen == 16 || buflen == 32
      ensures this.items == items && this.curpol == curpol && this.buf == "" && Sized()
    {
      this.items, this.curpol, this.buf, this.buflen, this.firstlen := items, curpol, "", buflen, buflen;
      new;
      assert buflen == Doubled(buflen, 0);
    }

    ghost predicate Sized()
      reads this
    {
      (firstlen == 16 || firstlen == 32) && 0 < buflen <= MAX_ALLOC && Grown(firstlen, buflen)
    }

    /** RESIZEBUF and the write it makes room for; the terminator fits too. An error if the buffer would be too large. */
    method Write(s: string, addsize: nat) returns (ok: bool)
      requires Sized() && |s| <= addsize
      modifies this`buf, this`buflen
      ensures Sized() && (ok <==> |old(buf)| + addsize + 1 < TEXT_LIMIT) && (ok ==> buf == old(buf) + s && |buf| < buflen)
    {
      while |buf| + addsize + 1 >= buflen
        invariant Sized() && buf == old(buf)
        decreases |buf| + addsize + 1 - buflen
      {
        TextBlock(firstlen, buflen);
        if buflen * 2 > MAX_ALLOC {
          return false;
        }
        GrownOnce(firstlen, buflen);
        buflen := buflen * 2;
      }
      TextBlock(firstlen, buflen);
      buf := buf + s;
      ok := true;
    }

    method Emit(first: bool, ghost lo: nat, ghost t: Tree) returns (ok: bool)
      requires Holds(items, lo, t) && AllInt32(t) && curpol == lo + Size(t) - 1 && Sized()
      modifies this
      ensures Sized() && (ok <==> Printable(t, first, |old(buf)|))
      ensures ok ==> buf == old(buf) + Print(t, first) && curpol == lo - 1
      decreases t
    {
      match items[curpol].node
      case Value(n) =>
        DecReadsBack(n);
        ok := Write(Dec(n), 11);
        curpol := curpol - 1;
      case Operator(op) =>
        if op == Not {
          ok := EmitNot(first, lo, t);
        } else {
          ok := EmitJoin(first, lo, t);
        }
    }

    method EmitNot(first: bool, ghost lo: nat, ghost t: Tree) returns (ok: bool)
      requires Holds(items, lo, t) && AllInt32(t) && curpol == lo + Size(t) - 1 && Sized() && t.Neg?
      modifies this
      ensures Sized() && (ok <==> Printable(t, first, |old(buf)|))
      ensures ok ==> buf == old(buf) + Print(t, first) && curpol == lo - 1
      decreases t, 0
    {
      ok := Write("!", 1);
      if !ok {
        return;
      }
      curpol := curpol - 1;
      ghost var b, u := old(buf), t.t;
      var isopr := items[curpol].node.Operator?;
      if isopr {
        ok := Write("( ", 2);
        if !ok {
          return;
        }
      }
      ok := Emit(isopr, lo, u);
      if !ok {
        return;
      }
      if isopr {
        ok := Write(" )", 2);
        InParens(b + "!", Print(u, true));
        Bracketed(b, "!", "( " + Print(u, true) + " )");
      } else {
        Bracketed(b, "!", Print(u, false));
      }
    }

    method EmitJoin(first: bool, ghost lo: nat, ghost t: Tree) returns (ok: bool)
      requires Holds(items, lo, t) && AllInt32(t) && curpol == lo + Size(t) - 1 && Sized() && t.Join?
      modifies this
      ensures Sized() && (ok <==> Printable(t, first, |old(buf)|))
      ensures ok ==> buf == old(buf) + Print(t, first) && curpol == lo - 1
      decreases t, 1
    {
      var op := items[curpol].node.op;
      curpol := curpol - 1;
      if op == Or && !first {
        ok := Write("( ", 2);
        if !ok {
          return;
        }
      }
      ok := EmitOperands(op, lo, t);
      if !ok {
        return;
      }
      if op == Or && !first {
        ok := Write(" )", 2);
        InParens(old(buf), Print(t, true));
      }
    }

    /** The right operand goes to a buffer of its own, because its items come first. */
    method EmitOperands(op: Op, ghost lo: nat, ghost t: Tree) returns (ok: bool)
      requires Holds(items, lo, t) && AllInt32(t) && curpol == lo + Size(t) - 2 && Sized() && t.Join?
      requires op == if t.both then And else Or
      modifies this
      ensures Sized() && (ok <==> OperandsPrintable(t, |old(buf)|))
      ensures ok ==> buf == old(buf) + Print(t, true) && curpol == lo - 1
      decreases t, 0
    {
      var nrm := new Infix(items, curpol, 16);
      ok := nrm.Emit(false, lo + Size(t.l), t.r);
      if !ok {
        return;
      }
      curpol := nrm.curpol;
      ok := Emit(false, lo, t.l);
      if !ok {
        return;
      }
      var sep := if op == And then " & " else " | ";
      assert nrm.buf == Print(t.r, false);
      ok := Write(sep + nrm.buf, 3 + |nrm.buf|);
      Infixed(old(buf), Print(t.l, false), sep, Print(t.r, false));
    }
  }

  lemma {:induction false} Bracketed(x: string, y: string, rest: string)
    ensures x + (y + rest) == (x + y) + rest
  {
  }

  lemma {:induction false} InParens(b: string, x: string)
    ensures ((b + "( ") + x) + " )" == b + ("( " + x + " )")
  {
  }

  lemma {:induction false} Infixed(b: string, l: string, sep: string, r: string)
    ensures (b + l) + (sep + r) == b + (l + sep + r)
  {
  }

  datatype Printed = Text(text: string) | EmptyQueryErr | TooLong

  /** bqarr_out. */
  method BqarrOut(items: seq<Item>, ghost t: Tree) returns (r: Printed)
    requires items == [] || (items == Linked(t) && AllInt32(t))
    ensures r == if items == [] then EmptyQueryErr else if Printable(t, true, 0) then Text(Print(t, true)) else TooLong
  {
    if |items| == 0 {
      return EmptyQueryErr;
    }
    assert items == [] + Linked(t) + [];
    WithinHolds(items, 0, [], t, []);
    var nrm := new Infix(items, |items| - 1, 32);
    var ok := nrm.Emit(true, 0, t);
    return if ok then Text(nrm.buf) else TooLong;
  }

  datatype Trip = NotPrinted | ReadBack(query: Parsed)

  /** bqarr_out and then bqarr_in on its text: the query leaning left, if the text fits its buffer. */
  method RoundTrip(items: seq<Item>, ghost t: Tree) returns (r: Trip)
    requires items == Linked(t) && AllInt32(t) && Size(t) <= QUERYTYPEMAXITEMS
    ensures r == if Printable(t, true, 0) then ReadBack(Query(Linked(LeanLeft(t)))) else NotPrinted
  {
    var printed := BqarrOut(items, t);
    if printed.TooLong? {
      return NotPrinted;
    }
    PrintedTextReadsAs(t);
    var read := BqarrIn(printed.text);
    return ReadBack(read);
  }
}
