/**
  How the tokens of a query are spelled, and that gettoken of
  contrib/intarray/_int_bool.c reads exactly the texts that spell a stream of
  tokens in which operands and operators alternate and parentheses balance.
 */
module BoolSpelling {
  import opened BoolQuery
  import opened BoolParser

  // ----- Spellings

  ghost predicate Blank(s: string) {
    forall i | 0 <= i < |s| :: s[i] == ' '
  }

  ghost predicate Numeric(ds: string) {
    forall i | 0 <= i < |ds| :: '0' <= ds[i] <= '9'
  }

  /** The number that digits write in a base. */
  function Positional(ds: string, base: nat): int {
    if ds == "" then 0 else Positional(ds[..|ds| - 1], base) * base + (ds[|ds| - 1] as int - '0' as int)
  }

  /** The first k digits, and no more, are octal. */
  ghost predicate OctalTo(ds: string, k: nat) {
    k <= |ds| && (forall i | 0 <= i < k :: ds[i] < '8') && (k < |ds| ==> ds[k] >= '8')
  }

  /** Digits after a leading zero are octal, as far as they go; all others are decimal. */
  ghost predicate Amounts(ds: string, v: int) {
    && Numeric(ds)
    && if ds != "" && ds[0] == '0' then exists k: nat | OctalTo(ds, k) :: v == Positional(ds[..k], 8)
       else v == Positional(ds, 10)
  }

  /** An optional minus and digits, of which there need be none after a minus, in at most 15 characters. */
  ghost predicate Numeral(w: string, n: int) {
    && 0 < |w| <= 15 && -0x8000_0000 <= n <= 0x7FFF_FFFF
    && if w[0] == '-' then Amounts(w[1..], -n) else Amounts(w, n)
  }

  ghost predicate WritesToken(w: string, tok: Token) {
    match tok
    case Val(n) => Numeral(w, n)
    case Opr(Not) => w == "!"
    case Opr(And) => w == "&"
    case Opr(Or) => w == "|"
    case Open => w == "("
    case Close => w == ")"
    case _ => false
  }

  /** A token as it is written, with the spaces before it. */
  datatype Piece = Piece(gap: string, word: string, tok: Token)

  function PiecesText(xs: seq<Piece>): string {
    if xs == [] then "" else xs[0].gap + xs[0].word + PiecesText(xs[1..])
  }

  function TokensOf(xs: seq<Piece>): seq<Token> {
    if xs == [] then [] else [xs[0].tok] + TokensOf(xs[1..])
  }

  ghost predicate PiecesOk(xs: seq<Piece>) {
    forall i | 0 <= i < |xs| :: Blank(xs[i].gap) && WritesToken(xs[i].word, xs[i].tok)
  }

  /** Spaces up to the end of the C string. */
  ghost predicate Ends(tail: string) {
    exists k | 0 <= k <= |tail| :: Blank(tail[..k]) && (k < |tail| ==> tail[k] == NUL)
  }

  /** The text is made of pieces that write the tokens, and ends. */
  ghost predicate Writes(text: string, toks: seq<Token>) {
    exists xs, tail :: PiecesOk(xs) && Ends(tail) && text == PiecesText(xs) + tail && toks == TokensOf(xs)
  }

  // ----- Numbers

  lemma {:induction false} ReadOneMore(ds: string, c: char, base: nat, acc: nat)
    requires Numeric(ds + [c]) && forall i | 0 <= i < |ds| :: ds[i] as int - '0' as int < base
    ensures var r := ReadDigits(ds, base, acc);
            ReadDigits(ds + [c], base, acc) == if c as int - '0' as int < base then r * base + (c as int - '0' as int) else r
    decreases |ds|
  {
    if ds == "" {
      assert ([] + [c])[1..] == [];
    } else {
      assert (ds + [c])[0] == ds[0] && (ds + [c])[1..] == ds[1..] + [c];
      ReadOneMore(ds[1..], c, base, acc * base + (ds[0] - '0') as int);
    }
  }

  /** Reading digits from the left gives the number they write. */
  lemma {:induction false} ReadIsPositional(ds: string, base: nat)
    requires Numeric(ds) && forall i | 0 <= i < |ds| :: ds[i] as int - '0' as int < base
    ensures ReadDigits(ds, base, 0) == Positional(ds, base)
  {
    if ds != "" {
      var front, c := ds[..|ds| - 1], ds[|ds| - 1];
      assert ds == front + [c];
      ReadIsPositional(front, base);
      ReadOneMore(front, c, base, 0);
    }
  }

  /** Nothing is read from a digit that is too large on. */
  lemma {:induction false} ReadStops(ds: string, k: nat, base: nat, acc: nat)
    requires k < |ds| && Numeric(ds) && ds[k] as int - '0' as int >= base && forall i | 0 <= i < k :: ds[i] as int - '0' as int < base
    ensures ReadDigits(ds, base, acc) == ReadDigits(ds[..k], base, acc)
    decreases k
  {
    if k > 0 {
      assert ds[..k][1..] == ds[1..][..k - 1];
      ReadStops(ds[1..], k - 1, base, acc * base + (ds[0] - '0') as int);
    }
  }

  /** Where octal digits end. */
  lemma {:induction false} OctalEnd(ds: string) returns (k: nat)
    ensures OctalTo(ds, k)
  {
    k := 0;
    while k < |ds| && ds[k] < '8'
      invariant k <= |ds| && forall i | 0 <= i < k :: ds[i] < '8'
    {
      k := k + 1;
    }
  }

  function BaseOf(ds: string): nat {
    if ds != "" && ds[0] == '0' then 8 else 10
  }

  lemma {:induction false} AmountIsRead(ds: string, v: int)
    requires Numeric(ds)
    ensures Amounts(ds, v) <==> v == ReadDigits(ds, BaseOf(ds), 0)
  {
    if BaseOf(ds) == 8 {
      forall k: nat | OctalTo(ds, k)
        ensures ReadDigits(ds, 8, 0) == Positional(ds[..k], 8)
      {
        ReadIsPositional(ds[..k], 8);
        if k < |ds| {
          ReadStops(ds, k, 8, 0);
        } else {
          assert ds[..k] == ds;
        }
      }
      var k := OctalEnd(ds);
    } else {
      ReadIsPositional(ds, 10);
    }
  }

  /** strtol reads every numeral as the number it writes, and digits it can read are a numeral. */
  lemma {:induction false} NumeralIsRead(w: string, n: int)
    requires 0 < |w| && (w[0] == '-' || IsDigit(w[0])) && Numeric(w[1..])
    ensures Numeral(w, n) <==> |w| < NUMBUF && n == Strtol(w) && IsInt32(n)
  {
    var ds := if w[0] == '-' then w[1..] else w;
    assert w == [w[0]] + w[1..];
    assert Numeric(ds);
    AmountIsRead(ds, if w[0] == '-' then -n else n);
  }

  // ----- What the lexer reads is spelled so

  lemma {:induction false} SkippedIsBlank(text: string, p: nat)
    requires p <= |text|
    ensures var q := SkipSpaces(text, p); Blank(text[p..q]) && (q < |text| ==> text[q] != ' ')
    decreases |text| - p
  {
    var q := SkipSpaces(text, p);
    if p < |text| && text[p] == ' ' {
      SkippedIsBlank(text, p + 1);
      assert text[p..q] == [text[p]] + text[p + 1..q];
    }
  }

  lemma {:induction false} DigitsAreNumeric(text: string, p: nat)
    requires p <= |text|
    ensures Numeric(text[p..DigitsEnd(text, p)])
    decreases |text| - p
  {
    if p < |text| && IsDigit(text[p]) {
      DigitsAreNumeric(text, p + 1);
      assert text[p..DigitsEnd(text, p)] == [text[p]] + text[p + 1..DigitsEnd(text, p)];
    }
  }

  lemma {:induction false} StepIsSpelled(text: string, q: nat, operand: bool, count: nat)
    requires q <= |text| && !StepAt(text, q, operand, count).tok.End? && !StepAt(text, q, operand, count).tok.Err?
    ensures var s := StepAt(text, q, operand, count); q < s.lx.pos && WritesToken(text[q..s.lx.pos], s.tok)
  {
    var s := StepAt(text, q, operand, count);
    var w := text[q..s.lx.pos];
    if s.tok.Val? {
      DigitsAreNumeric(text, q + 1);
      assert w[1..] == text[q + 1..s.lx.pos];
      NumeralIsRead(w, s.tok.n);
    } else {
      assert w == [text[q]];
    }
  }

  lemma {:induction false} EndIsSpelled(text: string, p: nat)
    requires p <= |text| && At(text, SkipSpaces(text, p)) == NUL
    ensures Ends(text[p..])
  {
    var tail, k := text[p..], SkipSpaces(text, p) - p;
    SkippedIsBlank(text, p);
    assert tail[..k] == text[p..p + k] && (k < |tail| ==> tail[k] == text[p + k]);
  }

  lemma {:induction false} OneMorePiece(x: Piece, more: seq<Piece>, tail: string)
    requires Blank(x.gap) && WritesToken(x.word, x.tok) && PiecesOk(more)
    ensures PiecesOk([x] + more) && TokensOf([x] + more) == [x.tok] + TokensOf(more)
    ensures PiecesText([x] + more) + tail == x.gap + x.word + (PiecesText(more) + tail)
  {
    assert ([x] + more)[1..] == more;
  }

  lemma {:induction false} ReadIsSpelled(text: string, lx: Lex, toks: seq<Token>) returns (xs: seq<Piece>, tail: string)
    requires lx.pos <= |text| && Tokens(text, lx) == toks + [End]
    ensures PiecesOk(xs) && Ends(tail) && text[lx.pos..] == PiecesText(xs) + tail && toks == TokensOf(xs)
    decreases |toks|
  {
    var p, q, s := lx.pos, SkipSpaces(text, lx.pos), NextToken(text, lx);
    assert s.tok == Tokens(text, lx)[0] == (toks + [End])[0];
    if toks == [] {
      xs, tail := [], text[p..];
      EndIsSpelled(text, p);
    } else if s.tok.End? || s.tok.Err? {
      assert false;
    } else {
      SkippedIsBlank(text, p);
      StepIsSpelled(text, q, lx.operand, lx.count);
      assert Tokens(text, s.lx) == Tokens(text, lx)[1..] == toks[1..] + [End];
      var more;
      more, tail := ReadIsSpelled(text, s.lx, toks[1..]);
      var x := Piece(text[p..q], text[q..s.lx.pos], s.tok);
      xs := [x] + more;
      OneMorePiece(x, more, tail);
      ThreeParts(text, p, q, s.lx.pos);
    }
  }

  lemma {:induction false} ThreeParts(text: string, p: nat, q: nat, e: nat)
    requires p <= q <= e <= |text|
    ensures text[p..] == text[p..q] + text[q..e] + text[e..]
  {
  }

  // ----- What is spelled so is read

  lemma {:induction false} BlankIsSkipped(text: string, p: nat, q: nat)
    requires p <= q <= |text| && Blank(text[p..q]) && (q < |text| ==> text[q] != ' ')
    ensures SkipSpaces(text, p) == q
    decreases q - p
  {
    if p < q {
      assert text[p] == text[p..q][0] && text[p + 1..q] == text[p..q][1..];
      BlankIsSkipped(text, p + 1, q);
    }
  }

  lemma {:induction false} NumericIsPassed(text: string, p: nat, q: nat)
    requires p <= q <= |text| && Numeric(text[p..q]) && (q < |text| ==> !IsDigit(text[q]))
    ensures DigitsEnd(text, p) == q
    decreases q - p
  {
    if p < q {
      assert text[p] == text[p..q][0] && text[p + 1..q] == text[p..q][1..];
      NumericIsPassed(text, p + 1, q);
    }
  }

  /** The characters a token can start with. */
  lemma {:induction false} FirstOfToken(w: string, tok: Token)
    requires WritesToken(w, tok)
    ensures w != "" && w[0] != ' ' && w[0] != NUL
    ensures tok.Val? <==> IsDigit(w[0]) || w[0] == '-'
    ensures tok.Val? ==> Numeric(w[1..])
  {
  }

  /** What comes where an operator is due does not lengthen a number, and is not the end within parentheses. */
  lemma {:induction false} NoDigitBehind(xs: seq<Piece>, tail: string, count: nat)
    requires PiecesOk(xs) && Ends(tail) && Shape(TokensOf(xs) + [End], false, count)
    ensures var text := PiecesText(xs) + tail;
            && (text == "" || !IsDigit(text[0]))
            && (count != 0 ==> text != "" && text[0] != NUL)
  {
    if xs == [] {
      assert TokensOf(xs) + [End] == [End];
      var k :| 0 <= k <= |tail| && Blank(tail[..k]) && (k < |tail| ==> tail[k] == NUL);
      assert 0 < k ==> tail[0] == tail[..k][0];
    } else {
      FirstOfToken(xs[0].word, xs[0].tok);
      assert (TokensOf(xs) + [End])[0] == xs[0].tok;
    }
  }

  /** One token, as it is spelled, from where the spaces before it end. */
  lemma {:induction false} SpelledStep(text: string, q: nat, e: nat, tok: Token, more: seq<Piece>, tail: string, operand: bool, count: nat)
    requires q < e <= |text| && WritesToken(text[q..e], tok) && text[e..] == PiecesText(more) + tail
    requires PiecesOk(more) && Ends(tail) && Shape([tok] + TokensOf(more) + [End], operand, count)
    ensures var s := StepAt(text, q, operand, count);
            s.tok == tok && s.lx.pos == e && Shape(TokensOf(more) + [End], s.lx.operand, s.lx.count)
  {
    var w, toks := text[q..e], [tok] + TokensOf(more) + [End];
    FirstOfToken(w, tok);
    assert w[0] == text[q];
    assert toks[0] == tok && toks[1..] == TokensOf(more) + [End];
    if tok.Val? {
      NoDigitBehind(more, tail, count);
      assert e < |text| ==> text[e..][0] == text[e];
      assert w[1..] == text[q + 1..e];
      NumericIsPassed(text, q + 1, e);
      NumeralIsRead(w, tok.n);
    } else {
      assert |w| == 1;
    }
  }

  /** Where the parts of the first piece are. */
  lemma {:induction false} FirstPiece(text: string, p: nat, x: Piece, rest: string) returns (q: nat, e: nat)
    requires p <= |text| && text[p..] == x.gap + x.word + rest && Blank(x.gap) && WritesToken(x.word, x.tok)
    ensures p <= q < e <= |text| && text[q..e] == x.word && text[e..] == rest && SkipSpaces(text, p) == q
  {
    var t := text[p..];
    q, e := p + |x.gap|, p + |x.gap| + |x.word|;
    FirstOfToken(x.word, x.tok);
    assert text[p..q] == t[..q - p] == x.gap;
    assert text[q..e] == t[q - p..e - p] == x.word;
    assert text[e..] == t[e - p..] == rest;
    assert text[q] == text[q..e][0];
    BlankIsSkipped(text, p, q);
  }

  lemma {:induction false} EndIsRead(text: string, lx: Lex)
    requires lx.pos <= |text| && Ends(text[lx.pos..]) && !lx.operand && lx.count == 0
    ensures Tokens(text, lx) == [End]
  {
    var p, tail := lx.pos, text[lx.pos..];
    var k :| 0 <= k <= |tail| && Blank(tail[..k]) && (k < |tail| ==> tail[k] == NUL);
    assert text[p..p + k] == tail[..k] && (k < |tail| ==> text[p + k] == tail[k]);
    BlankIsSkipped(text, p, p + k);
  }

  lemma {:induction false} SpelledIsRead(text: string, lx: Lex, xs: seq<Piece>, tail: string)
    requires lx.pos <= |text| && PiecesOk(xs) && Ends(tail) && text[lx.pos..] == PiecesText(xs) + tail
    requires Shape(TokensOf(xs) + [End], lx.operand, lx.count)
    ensures Tokens(text, lx) == TokensOf(xs) + [End]
    decreases |xs|
  {
    if xs == [] {
      assert PiecesText(xs) + tail == tail && TokensOf(xs) + [End] == [End];
      EndIsRead(text, lx);
    } else {
      var x, more := xs[0], xs[1..];
      assert PiecesText(xs) + tail == x.gap + x.word + (PiecesText(more) + tail);
      var q, e := FirstPiece(text, lx.pos, x, PiecesText(more) + tail);
      SpelledStep(text, q, e, x.tok, more, tail, lx.operand, lx.count);
      SpelledIsRead(text, NextToken(text, lx).lx, more, tail);
      assert TokensOf(xs) + [End] == [x.tok] + (TokensOf(more) + [End]);
    }
  }

  /** A text is lexed without an error exactly if it spells tokens that alternate and balance, and then as these tokens. */
  lemma {:induction false} LexedIsSpelled(text: string, toks: seq<Token>)
    ensures Lexed(text) == toks + [End] <==> Writes(text, toks) && Shape(toks + [End], true, 0)
  {
    assert text[0..] == text;
    if Lexed(text) == toks + [End] {
      TokensHaveShape(text, Lex(0, true, 0));
      var xs, tail := ReadIsSpelled(text, Lex(0, true, 0), toks);
    }
    if Writes(text, toks) && Shape(toks + [End], true, 0) {
      var xs, tail :| PiecesOk(xs) && Ends(tail) && text == PiecesText(xs) + tail && toks == TokensOf(xs);
      SpelledIsRead(text, Lex(0, true, 0), xs, tail);
    }
  }

  // ----- Phrases

  lemma {:induction false} ExprShape(e: Expr, rest: seq<Token>, count: nat)
    requires Shape(rest, false, count)
    ensures Shape(YieldE(e) + rest, true, count)
    decreases e
  {
    match e
    case Single(t) =>
      TermShape(t, rest, count);
    case Disj(d, t) =>
      var more := [Opr(Or)] + (YieldT(t) + rest);
      TermShape(t, rest, count);
      assert more[1..] == YieldT(t) + rest;
      ExprShape(d, more, count);
      assert YieldE(e) + rest == YieldE(d) + more;
  }

  lemma {:induction false} TermShape(t: Term, rest: seq<Token>, count: nat)
    requires Shape(rest, false, count)
    ensures Shape(YieldT(t) + rest, true, count)
    decreases t
  {
    match t
    case Lone(f) =>
      FactorShape(f, rest, count);
    case Conj(u, f) =>
      var more := [Opr(And)] + (YieldF(f) + rest);
      FactorShape(f, rest, count);
      assert more[1..] == YieldF(f) + rest;
      TermShape(u, more, count);
      assert YieldT(t) + rest == YieldT(u) + more;
  }

  lemma {:induction false} FactorShape(f: Factor, rest: seq<Token>, count: nat)
    requires Shape(rest, false, count)
    ensures Shape(YieldF(f) + rest, true, count)
    decreases f
  {
    match f
    case Number(n) =>
      assert ([Val(n)] + rest)[1..] == rest;
    case Negated(g) =>
      FactorShape(g, rest, count);
      assert (YieldF(f) + rest)[1..] == YieldF(g) + rest;
    case Paren(e) =>
      var more := [Close] + rest;
      assert more[1..] == rest;
      ExprShape(e, more, count + 1);
      assert (YieldF(f) + rest)[1..] == YieldE(e) + more;
  }

  /** A phrase is what the lexer reads exactly if the text spells it. */
  lemma {:induction false} PhraseIsLexed(text: string, e: Expr)
    ensures Lexed(text) == YieldE(e) + [End] <==> Writes(text, YieldE(e))
  {
    ExprShape(e, [End], 0);
    LexedIsSpelled(text, YieldE(e));
  }

  lemma {:induction false} PiecesConcat(a: seq<Piece>, b: seq<Piece>)
    ensures PiecesText(a + b) == PiecesText(a) + PiecesText(b) && TokensOf(a + b) == TokensOf(a) + TokensOf(b)
  {
    if a == [] {
      assert a + b == b;
    } else {
      assert (a + b)[1..] == a[1..] + b;
      PiecesConcat(a[1..], b);
    }
  }

  lemma {:induction false} OnePiece(x: Piece)
    ensures PiecesText([x]) == x.gap + x.word && TokensOf([x]) == [x.tok]
  {
    assert [x][1..] == [];
  }
}
