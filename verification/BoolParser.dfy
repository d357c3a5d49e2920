/**
  The lexer and parser of contrib/intarray/_int_bool.c: gettoken, pushquery and
  makepol over a shared work state.
 */
module BoolParser {
  import opened BoolQuery

  // ----- Lexing, as a function of the text

  const NUL: char := '\0'

  /** Size of gettoken's digit buffer. */
  const NUMBUF: nat := 16

  /** A C string: past its last character there is a terminator. */
  function At(text: string, p: nat): char {
    if p < |text| then text[p] else NUL
  }

  predicate IsDigit(c: char) {
    '0' <= c <= '9'
  }

  predicate IsInt32(n: int) {
    -0x8000_0000 <= n < 0x8000_0000
  }

  function SkipSpaces(text: string, p: nat): (q: nat)
    ensures p <= q && (p <= |text| ==> q <= |text|)
    decreases |text| - p
  {
    if p < |text| && text[p] == ' ' then SkipSpaces(text, p + 1) else p
  }

  function DigitsEnd(text: string, p: nat): (q: nat)
    ensures p <= q && (p <= |text| ==> q <= |text|)
    decreases |text| - p
  {
    if p < |text| && IsDigit(text[p]) then DigitsEnd(text, p + 1) else p
  }

  /** Digits in the given base are read until one does not belong to it. */
  function ReadDigits(ds: string, base: nat, acc: nat): nat {
    if ds == "" || !IsDigit(ds[0]) || (ds[0] - '0') as int >= base then acc
    else ReadDigits(ds[1..], base, acc * base + (ds[0] - '0') as int)
  }

  /** strtol with base 0 on an optional minus sign and digits: a leading zero means octal. */
  function Strtol(s: string): int {
    var negative := s != "" && s[0] == '-';
    var ds := if negative then s[1..] else s;
    var v: int := ReadDigits(ds, if ds != "" && ds[0] == '0' then 8 else 10, 0);
    if negative then -v else v
  }

  /** Where the lexer stands: position, whether it awaits an operand, and open parentheses. */
  datatype Lex = Lex(pos: nat, operand: bool, count: nat)

  datatype Step = Step(tok: Token, lx: Lex)

  function NextToken(text: string, lx: Lex): (s: Step)
    requires lx.pos <= |text|
    ensures lx.pos <= s.lx.pos <= |text|
    ensures !s.tok.End? && !s.tok.Err? ==> lx.pos < s.lx.pos
  {
    StepAt(text, SkipSpaces(text, lx.pos), lx.operand, lx.count)
  }

  /** The token that starts at q, where there is no space. */
  function StepAt(text: string, q: nat, operand: bool, count: nat): (s: Step)
    requires q <= |text|
    ensures q <= s.lx.pos <= |text| && (!s.tok.End? && !s.tok.Err? ==> q < s.lx.pos)
  {
    var c := At(text, q);
    if operand then
      if IsDigit(c) || c == '-' then
        var e := DigitsEnd(text, q + 1);
        if e - q >= NUMBUF || !IsInt32(Strtol(text[q..e])) || (count != 0 && At(text, e) == NUL) then Step(Err, Lex(q, operand, count))
        else Step(Val(Strtol(text[q..e])), Lex(e, false, count))
      else if c == '!' then Step(Opr(Not), Lex(q + 1, operand, count))
      else if c == '(' then Step(Open, Lex(q + 1, true, count + 1))
      else Step(Err, Lex(q, operand, count))
    else
      if c == '&' then Step(Opr(And), Lex(q + 1, true, count))
      else if c == '|' then Step(Opr(Or), Lex(q + 1, true, count))
      else if c == ')' then
        if count == 0 then Step(Err, Lex(q, operand, count)) else Step(Close, Lex(q + 1, false, count - 1))
      else if c == NUL && count == 0 then Step(End, Lex(q, operand, count))
      else Step(Err, Lex(q, operand, count))
  }

  function Tokens(text: string, lx: Lex): seq<Token>
    requires lx.pos <= |text|
    decreases |text| - lx.pos
  {
    var s := NextToken(text, lx);
    if s.tok.End? || s.tok.Err? then [s.tok] else [s.tok] + Tokens(text, s.lx)
  }

  /** The whole text as tokens. */
  function Lexed(text: string): seq<Token> {
    Tokens(text, Lex(0, true, 0))
  }

  /** Lexed streams alternate operands with operators and balance their parentheses. */
  lemma {:induction false} TokensHaveShape(text: string, lx: Lex)
    requires lx.pos <= |text|
    ensures Shape(Tokens(text, lx), lx.operand, lx.count)
    decreases |text| - lx.pos
  {
    var s := NextToken(text, lx);
    if !s.tok.End? && !s.tok.Err? {
      TokensHaveShape(text, s.lx);
      assert Tokens(text, lx)[1..] == Tokens(text, s.lx);
    }
  }

  /** After an End the lexer says End again. */
  lemma {:induction false} EndRepeats(text: string, lx: Lex)
    requires lx.pos <= |text| && NextToken(text, lx).tok.End?
    ensures Tokens(text, NextToken(text, lx).lx) == [End] == Tokens(text, lx)
  {
    SkipTwice(text, lx.pos);
  }

  lemma {:induction false} SkipTwice(text: string, p: nat)
    ensures SkipSpaces(text, SkipSpaces(text, p)) == SkipSpaces(text, p)
    decreases |text| - p
  {
    if p < |text| && text[p] == ' ' {
      SkipTwice(text, p + 1);
    }
  }

  lemma {:induction false} OneMore(text: string, q: nat, p: nat)
    requires q <= p < |text|
    ensures text[q..p + 1] == text[q..p] + [text[p]] && (q == p ==> text[q..p + 1] == [text[p]])
  {
  }

  // ----- The work state

  datatype State = WaitOperand | WaitEndOperand | WaitOperator

  /** The polish notation as a linked list, last entry first. */
  datatype List = Nil | Cons(node: Node, next: List)

  function Pushed(l: List): seq<Node> {
    match l
    case Nil => []
    case Cons(node, next) => Pushed(next) + [node]
  }

  datatype Verdict = Fine | BadSyntax | Complex

  class WorkState {
    const text: string
    var buf: nat
    var state: State
    var count: int
    var str: List
    var num: nat

    constructor (text: string)
      ensures this.text == text && Valid() && Here() == Lex(0, true, 0) && str == Nil
    {
      this.text := text;
      buf, state, count, str, num := 0, WaitOperand, 0, Nil, 0;
    }

    ghost predicate Valid()
      reads this
    {
      buf <= |text| && state != WaitEndOperand && 0 <= count && num == |Pushed(str)|
    }

    ghost function Here(): Lex
      requires Valid()
      reads this
    {
      Lex(buf, state == WaitOperand, count)
    }

    ghost function Rest(): seq<Token>
      requires Valid()
      reads this
    {
      Tokens(text, Here())
    }

    method GetToken() returns (tok: Token)
      requires Valid()
      modifies this`buf, this`state, this`count
      ensures tok == NextToken(text, old(Here())).tok
      ensures !tok.Err? ==> Valid() && Here() == NextToken(text, old(Here())).lx
    {
      var nnn := "";
      ghost var q := SkipSpaces(text, buf);
      while true
        invariant buf <= |text| && count == old(count) && |nnn| <= NUMBUF
        invariant state != WaitEndOperand ==> state == old(state) && nnn == "" && SkipSpaces(text, buf) == q
        invariant state == WaitEndOperand ==> old(state) == WaitOperand && q < buf && (IsDigit(At(text, q)) || At(text, q) == '-')
        invariant state == WaitEndOperand ==> nnn == text[q..buf] && DigitsEnd(text, buf) == DigitsEnd(text, q + 1)
        decreases |text| - buf
      {
        if |nnn| >= NUMBUF {
          return Err;
        }
        var c := At(text, buf);
        match state {
        case WaitOperand =>
          if IsDigit(c) || c == '-' {
            state := WaitEndOperand;
            nnn := [c];
            OneMore(text, q, buf);
          } else {
            var done;
            assert c != ' ' ==> q == buf;
            done, tok := OnOperand(c);
            if done {
              return;
            }
          }
        case WaitEndOperand =>
          if IsDigit(c) {
            nnn := nnn + [c];
            OneMore(text, q, buf);
          } else {
            var lval := Strtol(nnn);
            if !IsInt32(lval) {
              return Err;
            }
            state := WaitOperator;
            return if count != 0 && c == NUL then Err else Val(lval);
          }
        case WaitOperator =>
          var done;
          assert c != ' ' ==> q == buf;
          done, tok := OnOperator(c);
          if done {
            return;
          }
        }
        buf := buf + 1;
      }
    }

    /** WAITOPERAND, but for a number: a negation or an opening parenthesis; a space is passed over. */
    method OnOperand(c: char) returns (done: bool, tok: Token)
      requires Valid() && state == WaitOperand && c == At(text, buf) && !IsDigit(c) && c != '-'
      modifies this`buf, this`count
      ensures done ==> tok == StepAt(text, old(buf), true, old(count)).tok
      ensures done && !tok.Err? ==> Valid() && Here() == StepAt(text, old(buf), true, old(count)).lx
      ensures (done <==> c != ' ') && (!done ==> buf == old(buf) && count == old(count))
    {
      if c == '!' {
        buf := buf + 1;
        return true, Opr(Not);
      } else if c == '(' {
        count, buf := count + 1, buf + 1;
        return true, Open;
      }
      return c != ' ', Err;
    }

    /** WAITOPERATOR: an operator, a closing parenthesis or the end; a space is passed over. */
    method OnOperator(c: char) returns (done: bool, tok: Token)
      requires Valid() && state == WaitOperator && c == At(text, buf)
      modifies this`buf, this`state, this`count
      ensures done ==> tok == StepAt(text, old(buf), false, old(count)).tok
      ensures done && !tok.Err? ==> Valid() && Here() == StepAt(text, old(buf), false, old(count)).lx
      ensures (done <==> c != ' ') && (!done ==> state == WaitOperator && buf == old(buf) && count == old(count))
    {
      if c == '&' || c == '|' {
        state, buf := WaitOperand, buf + 1;
        return true, Opr(if c == '&' then And else Or);
      } else if c == ')' {
        buf, count := buf + 1, count - 1;
        return true, if count < 0 then Err else Close;
      } else if c == NUL {
        return true, if count != 0 then Err else End;
      }
      return c != ' ', Err;
    }

    method PushQuery(node: Node)
      requires Valid()
      modifies this`str, this`num
      ensures Valid() && Pushed(str) == old(Pushed(str)) + [node]
    {
      str, num := Cons(node, str), num + 1;
    }

    /** Emits the operators that bind tighter than |. */
    method EmitTight(stack: array<Op>, len: nat) returns (len': nat)
      requires Valid() && len <= stack.Length
      modifies this`str, this`num
      ensures Valid() && len' <= len
      ensures (stack[..len'], Pushed(str)) == PopTight(stack[..len], old(Pushed(str)))
    {
      len' := len;
      while len' > 0 && stack[len' - 1] != Or
        invariant Valid() && len' <= len
        invariant PopTight(stack[..len'], Pushed(str)) == PopTight(stack[..len], old(Pushed(str)))
      {
        len' := len' - 1;
        assert stack[..len' + 1][..len'] == stack[..len'];
        PushQuery(Operator(stack[len']));
      }
    }

    /** Emits everything pending. */
    method EmitAll(stack: array<Op>, len: nat)
      requires Valid() && len <= stack.Length
      modifies this`str, this`num
      ensures Valid() && Pushed(str) == PopAll(stack[..len], old(Pushed(str)))
    {
      var n: nat := len;
      while n > 0
        invariant Valid() && n <= len
        invariant PopAll(stack[..n], Pushed(str)) == PopAll(stack[..len], old(Pushed(str)))
      {
        n := n - 1;
        assert stack[..n + 1][..n] == stack[..n];
        PushQuery(Operator(stack[n]));
      }
    }

    /** An operator is stacked, except that a second | is emitted at once. */
    method TakeOperator(stack: array<Op>, len: nat, op: Op) returns (len': nat)
      requires Valid() && len <= stack.Length && (len == stack.Length ==> 0 < len && op == Or)
      modifies this`str, this`num, stack
      ensures Valid() && len' <= stack.Length
      ensures if 0 < len && op == Or then len' == len && stack[..len] == old(stack[..len]) && Pushed(str) == old(Pushed(str)) + [Operator(Or)]
              else len' == len + 1 && stack[..len'] == old(stack[..len]) + [op] && Pushed(str) == old(Pushed(str))
    {
      len' := len;
      if len > 0 && op == Or {
        PushQuery(Operator(op));
      } else {
        stack[len] := op;
        len' := len + 1;
      }
    }

    /** A value or an operator is taken as Pol takes it, unless the stack is full. */
    method TakePlain(stack: array<Op>, len: nat, tok: Token, ghost toks: seq<Token>) returns (full: bool, len': nat)
      requires Valid() && len <= stack.Length == STACKDEPTH && (tok.Val? || tok.Opr?) && toks != [] && toks[0] == tok
      modifies this`str, this`num, stack
      ensures Valid() && len' <= STACKDEPTH
      ensures Pol(toks, old(stack[..len]), old(Pushed(str))) == if full then TooComplex else Pol(toks[1..], stack[..len'], Pushed(str))
    {
      match tok
      case Val(n) =>
        PushQuery(Value(n));
        len' := EmitTight(stack, len);
        return false, len';
      case Opr(op) =>
        if len == STACKDEPTH && op != Or {
          return true, len;
        }
        len' := TakeOperator(stack, len, op);
        return false, len';
    }

    /** The call did to the text and the notation what Pol says. */
    ghost predicate Follows(v: Verdict, p: PolResult)
      reads this
    {
      match p
      case Done(rest, out) => v == Fine && Valid() && Rest() == rest && Pushed(str) == out
      case SyntaxError => v == BadSyntax
      case TooComplex => v == Complex
    }

    method MakePol() returns (v: Verdict)
      requires Valid()
      modifies this
      ensures Follows(v, Pol(old(Rest()), [], old(Pushed(str))))
      ensures v == Fine ==> old(buf) <= buf
      decreases |text| - buf
    {
      ghost var goal := Pol(Rest(), [], Pushed(str));
      var stack := new Op[STACKDEPTH];
      var len: nat := 0;
      assert stack[..0] == [];
      while true
        invariant fresh(stack) && Valid() && len <= STACKDEPTH && old(buf) <= buf
        invariant Pol(Rest(), stack[..len], Pushed(str)) == goal
        decreases |text| - buf
      {
        label Before:
        ghost var toks, out := Rest(), Pushed(str);
        var tok := GetToken();
        if tok.Err? {
          assert toks == [Err];
          return BadSyntax;
        }
        if tok.End? {
          EndRepeats(text, old@Before(Here()));
          break;
        }
        assert toks[1..] == Rest();
        if tok.Close? {
          EmitAll(stack, len);
          return Fine;
        }
        if tok.Open? {
          v := MakePol();
          if v != Fine {
            return;
          }
          len := EmitTight(stack, len);
        } else {
          var full;
          full, len := TakePlain(stack, len, tok, toks);
          if full {
            return Complex;
          }
        }
      }
      EmitAll(stack, len);
      return Fine;
    }
  }
}
