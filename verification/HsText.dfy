/**
  The text form of hstore values, contrib/hstore/hstore_io.c: what is printed, and
  the automaton, one state per character, that the two nested state machines of the
  parser come down to.
 */
module HsText {
  import opened HsLayout
  import opened HsPairs

  const QUOTE: Byte := 34
  const BACKSLASH: Byte := 92
  const COMMA: Byte := 44
  const EQUALS: Byte := 61
  const GREATER: Byte := 62
  const SPACE: Byte := 32
  const HSTORE_MAX_LEN: nat := 0x3fff_ffff
  const NULL_TEXT: Bytes := [78, 85, 76, 76]

  /** isspace in the C locale. */
  predicate IsSpace(c: Byte) {
    9 <= c <= 13 || c == 32
  }

  /** The word "null" in any case. */
  predicate IsNullWord(w: Bytes) {
    |w| == 4 && w[0] in {78, 110} && w[1] in {85, 117} && w[2] in {76, 108} && w[3] in {76, 108}
  }

  // ----- The automaton

  datatype WordMode = Wait | In | Quoted | Escape | QuotedEscape

  datatype Mode = Word(st: WordMode, isVal: bool) | Eq | Gt | Del | Fail

  /** Where the parser is, the word so far, whether it was quoted, the last key and the pairs so far. */
  datatype State = State(mode: Mode, word: Bytes, quoted: bool, key: Bytes, pairs: seq<Pair>)

  const START := State(Word(Wait, false), [], false, [], [])

  /** The value a word stands for. */
  function WordValue(w: Bytes, quoted: bool): Value {
    if !quoted && IsNullWord(w) then Null else Str(w)
  }

  function Lower(c: Byte): Byte {
    if 65 <= c <= 90 then c + 32 else c
  }

  function Lowered(w: Bytes): Bytes {
    seq(|w|, i requires 0 <= i < |w| => Lower(w[i]))
  }

  /** A bare word is a null exactly if its letters in lower case are "null"; a quoted word never is. */
  lemma {:induction false} NullInAnyCase(w: Bytes)
    ensures WordValue(w, false) == if Lowered(w) == [110, 117, 108, 108] then Null else Str(w)
    ensures WordValue(w, true) == Str(w)
  {
    var l := Lowered(w);
    if |w| == 4 {
      assert l == [Lower(w[0]), Lower(w[1]), Lower(w[2]), Lower(w[3])];
    }
  }

  /** A word is complete: it is the key, or it is the value and ends a pair. */
  function EndWord(s: State): State
    requires s.mode.Word?
  {
    if |s.word| > HSTORE_MAX_LEN then s.(mode := Fail)
    else if s.mode.isVal then State(Del, [], false, [], s.pairs + [Pair(s.key, WordValue(s.word, s.quoted))])
    else State(Eq, [], false, s.word, s.pairs)
  }

  function Put(s: State, c: Byte, st: WordMode): State
    requires s.mode.Word?
  {
    s.(mode := s.mode.(st := st), word := s.word + [c])
  }

  function Step(s: State, c: Byte): State {
    match s.mode
    case Word(_, _) => StepWord(s, c)
    case _ => StepBetween(s, c)
  }

  function StepWord(s: State, c: Byte): State
    requires s.mode.Word?
  {
    match s.mode.st
    case Wait =>
      if c == QUOTE then s.(mode := s.mode.(st := Quoted), quoted := true)
      else if c == EQUALS && !s.mode.isVal then s.(mode := Fail)
      else if c == BACKSLASH then s.(mode := s.mode.(st := Escape))
      else if IsSpace(c) then s
      else Put(s, c, In)
    case In =>
      if c == BACKSLASH then s.(mode := s.mode.(st := Escape))
      else if c == if s.mode.isVal then COMMA else EQUALS then StepBetween(EndWord(s), c)
      else if IsSpace(c) then EndWord(s)
      else Put(s, c, In)
    case Quoted =>
      if c == BACKSLASH then s.(mode := s.mode.(st := QuotedEscape))
      else if c == QUOTE then EndWord(s)
      else Put(s, c, Quoted)
    case Escape => Put(s, c, In)
    case QuotedEscape => Put(s, c, Quoted)
  }

  function StepBetween(s: State, c: Byte): State {
    match s.mode
    case Eq => if c == EQUALS then s.(mode := Gt) else if IsSpace(c) then s else s.(mode := Fail)
    case Gt => if c == GREATER then s.(mode := Word(Wait, true)) else s.(mode := Fail)
    case Del => if c == COMMA then s.(mode := Word(Wait, false)) else if IsSpace(c) then s else s.(mode := Fail)
    case _ => s
  }

  /** The pairs read when the text ends here, or an error. */
  function End(s: State): Option<seq<Pair>> {
    match s.mode
    case Word(Wait, false) => Some(s.pairs)
    case Word(In, true) => if |s.word| > HSTORE_MAX_LEN then None else Some(EndWord(s).pairs)
    case Del => Some(s.pairs)
    case _ => None
  }

  /** The outcome of reading u from place p on. */
  function Finish(u: Bytes, p: nat, s: State): Option<seq<Pair>>
    requires p <= |u|
    decreases |u| - p
  {
    if p == |u| then End(s) else Finish(u, p + 1, Step(s, u[p]))
  }

  /** What a text means. */
  function Parse(u: Bytes): Option<seq<Pair>> {
    Finish(u, 0, START)
  }

  // ----- What the parser has room for

  /** The word buffer doubles from 32 bytes, the array of pairs from 16 pairs of 40 bytes, until the next block would be refused. */
  const WORD_LIMIT: nat := 0x2000_0000
  const PAIRS_LIMIT: nat := 0x100_0000

  predicate HasRoom(p: Pair) {
    |p.key| < WORD_LIMIT && |ValBytes(p)| < WORD_LIMIT
  }

  ghost predicate Admissible(ps: seq<Pair>) {
    |ps| <= PAIRS_LIMIT && forall i | 0 <= i < |ps| :: HasRoom(ps[i])
  }

  ghost function Admitted(o: Option<seq<Pair>>): Option<seq<Pair>> {
    if o.Some? && !Admissible(o.value) then None else o
  }

  /** What a text is read as: what it means, if there is room for that. */
  ghost function ReadText(u: Bytes): Option<seq<Pair>> {
    Admitted(Parse(u))
  }

  /** There is no room for what has been read, a key without its value included. */
  ghost predicate Excess(s: State) {
    || !Admissible(s.pairs)
    || ((s.mode.Eq? || s.mode.Gt? || (s.mode.Word? && s.mode.isVal)) && (|s.pairs| >= PAIRS_LIMIT || |s.key| >= WORD_LIMIT))
    || (s.mode.Word? && s.mode.st != Wait && |s.word| >= WORD_LIMIT)
  }

  lemma {:induction false} ExcessOfWord(s: State)
    requires s.mode.Word? && Excess(s)
    ensures EndWord(s).mode.Fail? || Excess(EndWord(s))
  {
    var t := EndWord(s);
    if t.mode.Del? {
      assert t.pairs == s.pairs + [Pair(s.key, WordValue(s.word, s.quoted))];
      assert t.pairs[|s.pairs|] == Pair(s.key, WordValue(s.word, s.quoted));
      if !Admissible(s.pairs) && |s.pairs| <= PAIRS_LIMIT {
        var i :| 0 <= i < |s.pairs| && !HasRoom(s.pairs[i]);
        assert !HasRoom(t.pairs[i]);
      }
    }
  }

  lemma {:induction false} ExcessStays(s: State, c: Byte)
    requires Excess(s)
    ensures Step(s, c).mode.Fail? || Excess(Step(s, c))
  {
    if s.mode.Word? {
      ExcessOfWord(s);
    }
  }

  /** Once there is no room, the text is refused. */
  lemma {:induction false} ExcessIsRefused(u: Bytes, p: nat, s: State)
    requires p <= |u| && (Excess(s) || s.mode.Fail?)
    ensures Admitted(Finish(u, p, s)) == None
    decreases |u| - p
  {
    if s.mode.Fail? {
      FailIsFinal(u, p, s);
    } else if p < |u| {
      ExcessStays(s, u[p]);
      ExcessIsRefused(u, p + 1, Step(s, u[p]));
    } else if s.mode.Word? {
      ExcessOfWord(s);
    }
  }

  lemma {:induction false} FailIsFinal(u: Bytes, p: nat, s: State)
    requires p <= |u| && s.mode.Fail?
    ensures Finish(u, p, s) == None
    decreases |u| - p
  {
    if p < |u| {
      FailIsFinal(u, p + 1, s);
    }
  }

  // ----- Printing

  function Escaped(w: Bytes): Bytes {
    if w == [] then []
    else Escaped(w[..|w| - 1]) + EscapedByte(w[|w| - 1])
  }

  function EscapedByte(c: Byte): Bytes {
    if c == QUOTE || c == BACKSLASH then [BACKSLASH, c] else [c]
  }

  function QuotedText(w: Bytes): Bytes {
    [QUOTE] + Escaped(w) + [QUOTE]
  }

  function ValueText(v: Value): Bytes {
    if v.Null? then NULL_TEXT else QuotedText(v.s)
  }

  function PairText(p: Pair): Bytes {
    QuotedText(p.key) + [EQUALS, GREATER] + ValueText(p.val)
  }

  /** What goes between the pairs printed so far and the next one. */
  function Separator(front: seq<Pair>): Bytes {
    if front == [] then [] else [COMMA, SPACE]
  }

  function Print(ps: seq<Pair>): Bytes {
    if ps == [] then []
    else
      var front := ps[..|ps| - 1];
      Print(front) + Separator(front) + PairText(ps[|ps| - 1])
  }

  // ----- Reading what was printed

  function Run(s: State, w: Bytes): State {
    if w == [] then s else Step(Run(s, w[..|w| - 1]), w[|w| - 1])
  }

  lemma {:induction false} RunConcat(s: State, a: Bytes, b: Bytes)
    ensures Run(s, a + b) == Run(Run(s, a), b)
  {
    if b == [] {
      assert a + b == a;
    } else {
      var n := |b| - 1;
      RunConcat(s, a, b[..n]);
      assert (a + b)[..|a + b| - 1] == a + b[..n];
    }
  }

  lemma {:induction false} FinishIsRun(u: Bytes, p: nat, s: State)
    requires p <= |u|
    ensures Finish(u, 0, s) == Finish(u, p, Run(s, u[..p]))
  {
    if p > 0 {
      FinishIsRun(u, p - 1, s);
      assert u[..p][..p - 1] == u[..p - 1];
    }
  }

  lemma {:induction false} ParseIsRun(u: Bytes)
    ensures Parse(u) == End(Run(START, u))
  {
    FinishIsRun(u, |u|, START);
    assert u[..|u|] == u;
  }

  lemma {:induction false} RunEscaped(s: State, w: Bytes)
    requires s.mode.Word? && s.mode.st == Quoted
    ensures Run(s, Escaped(w)) == s.(word := s.word + w)
  {
    if w == [] {
      assert s.word + w == s.word;
    } else {
      var front, c := w[..|w| - 1], w[|w| - 1];
      assert s.word + front + [c] == s.word + w;
      RunEscaped(s, front);
      RunConcat(s, Escaped(front), EscapedByte(c));
      RunByte(s.(word := s.word + front), c);
    }
  }

  lemma {:induction false} RunByte(s: State, c: Byte)
    requires s.mode.Word? && s.mode.st == Quoted
    ensures Run(s, EscapedByte(c)) == s.(word := s.word + [c])
  {
    RunOne(s, c);
    if c == QUOTE || c == BACKSLASH {
      var t := s.(mode := s.mode.(st := QuotedEscape));
      RunOne(s, BACKSLASH);
      RunOne(t, c);
      RunConcat(s, [BACKSLASH], [c]);
      assert [BACKSLASH] + [c] == [BACKSLASH, c];
    }
  }

  lemma {:induction false} RunOne(s: State, c: Byte)
    ensures Run(s, [c]) == Step(s, c)
  {
    assert [c][..0] == [];
  }

  /** A quoted text is the word in the quotes, whatever the word. */
  lemma {:induction false} RunQuoted(s: State, w: Bytes)
    requires s.mode.Word? && s.mode.st == Wait && s.word == [] && |w| <= HSTORE_MAX_LEN
    ensures Run(s, QuotedText(w)) == EndWord(s.(word := w, quoted := true))
  {
    var t := s.(mode := s.mode.(st := Quoted), quoted := true);
    RunOne(s, QUOTE);
    RunConcat(s, [QUOTE], Escaped(w));
    RunEscaped(t, w);
    assert [] + w == w;
    RunConcat(s, [QUOTE] + Escaped(w), [QUOTE]);
    RunOne(t.(word := w), QUOTE);
  }

  /** Between a key and its value. */
  lemma {:induction false} RunArrow(s: State)
    requires s.mode.Eq?
    ensures Run(s, [EQUALS, GREATER]) == s.(mode := Word(Wait, true))
  {
    assert [EQUALS, GREATER] == [EQUALS] + [GREATER];
    RunConcat(s, [EQUALS], [GREATER]);
    RunOne(s, EQUALS);
    RunOne(s.(mode := Gt), GREATER);
  }

  lemma {:induction false} RunSeparator(s: State)
    requires s.mode.Del? || (s.mode == Word(In, true) && |s.word| <= HSTORE_MAX_LEN)
    ensures Run(s, [COMMA, SPACE]) == (if s.mode.Del? then s else EndWord(s)).(mode := Word(Wait, false))
  {
    assert [COMMA, SPACE] == [COMMA] + [SPACE];
    RunConcat(s, [COMMA], [SPACE]);
    RunOne(s, COMMA);
    RunOne(Step(s, COMMA), SPACE);
  }

  lemma {:induction false} RunNull(s: State)
    requires s.mode == Word(Wait, true) && s.word == []
    ensures Run(s, NULL_TEXT) == s.(mode := Word(In, true), word := NULL_TEXT)
  {
    var n, u, l := [NULL_TEXT[0]], NULL_TEXT[..2], NULL_TEXT[..3];
    assert NULL_TEXT[..3][..2] == NULL_TEXT[..2] && NULL_TEXT[..2][..1] == n && n[..0] == [];
    assert Run(s, n) == s.(mode := Word(In, true), word := n);
    assert Run(s, u) == s.(mode := Word(In, true), word := u);
    assert Run(s, l) == s.(mode := Word(In, true), word := l);
  }

  /** The state after some pairs were printed: between pairs, or at the end of a bare NULL. */
  ghost predicate After(s: State, ps: seq<Pair>) {
    || s == State(Del, [], false, [], ps)
    || (s.mode == Word(In, true) && s.word == NULL_TEXT && !s.quoted && EndWord(s) == State(Del, [], false, [], ps))
  }

  ghost predicate Short(p: Pair) {
    |p.key| <= HSTORE_MAX_LEN && |ValBytes(p)| <= HSTORE_MAX_LEN
  }

  lemma {:induction false} RunPair(s: State, p: Pair)
    requires s == State(Word(Wait, false), [], false, [], s.pairs) && Short(p)
    ensures After(Run(s, PairText(p)), s.pairs + [p])
  {
    var k, a, v := QuotedText(p.key), [EQUALS, GREATER], ValueText(p.val);
    RunQuoted(s, p.key);
    var t := State(Eq, [], false, p.key, s.pairs);
    RunConcat(s, k, a);
    RunArrow(t);
    RunConcat(s, k + a, v);
    var x := t.(mode := Word(Wait, true));
    if p.val.Null? {
      RunNull(x);
    } else {
      RunQuoted(x, p.val.s);
    }
  }

  ghost predicate AllShort(ps: seq<Pair>) {
    forall i | 0 <= i < |ps| :: Short(ps[i])
  }

  /** The state in front of a pair. */
  function Waiting(ps: seq<Pair>): State {
    State(Word(Wait, false), [], false, [], ps)
  }

  lemma {:induction false} RunPrinted(ps: seq<Pair>)
    requires ps != [] && AllShort(ps)
    ensures After(Run(START, Print(ps)), ps)
  {
    var front, p := ps[..|ps| - 1], ps[|ps| - 1];
    Snoc(ps, |ps| - 1);
    if front != [] {
      RunPrinted(front);
    }
    RunLead(front);
    assert Short(p);
    RunPair(Waiting(front), p);
    RunConcat(START, Print(front) + Separator(front), PairText(p));
  }

  lemma {:induction false} RunLead(front: seq<Pair>)
    requires front != [] ==> After(Run(START, Print(front)), front)
    ensures Run(START, Print(front) + Separator(front)) == Waiting(front)
  {
    RunConcat(START, Print(front), Separator(front));
    if front != [] {
      RunSeparator(Run(START, Print(front)));
    }
  }

  /** Printed pairs read back as themselves; a null stays a null and the word NULL stays a word. */
  lemma {:induction false} PrintedPairsReadBack(ps: seq<Pair>)
    requires AllShort(ps)
    ensures Parse(Print(ps)) == Some(ps)
  {
    ParseIsRun(Print(ps));
    if ps != [] {
      RunPrinted(ps);
      AfterEnds(Run(START, Print(ps)), ps);
    }
  }

  lemma {:induction false} AfterEnds(s: State, ps: seq<Pair>)
    requires After(s, ps)
    ensures End(s) == Some(ps)
  {
  }

  // ----- Bytes that end a C string

  predicate NoNul(w: Bytes) {
    0 !in w
  }

  lemma {:induction false} NoNulConcat(a: Bytes, b: Bytes)
    requires NoNul(a) && NoNul(b)
    ensures NoNul(a + b)
  {
  }

  predicate Clean(p: Pair) {
    NoNul(p.key) && NoNul(ValBytes(p))
  }

  /** The C string at the start of a buffer. */
  function CStr(t: Bytes): Bytes {
    if t == [] || t[0] == 0 then [] else [t[0]] + CStr(t[1..])
  }

  lemma {:induction false} CStrOf(a: Bytes, rest: Bytes)
    requires NoNul(a) && (rest == [] || rest[0] == 0)
    ensures CStr(a + rest) == a
  {
    if a == [] {
      assert a + rest == rest;
    } else {
      CStrOf(a[1..], rest);
      assert (a + rest)[1..] == a[1..] + rest;
    }
  }

  lemma {:induction false} EscapedConcat(a: Bytes, b: Bytes)
    ensures Escaped(a + b) == Escaped(a) + Escaped(b)
  {
    if b == [] {
      assert a + b == a;
    } else {
      var n := |b| - 1;
      EscapedConcat(a, b[..n]);
      assert (a + b)[..|a + b| - 1] == a + b[..n];
      Regrouped(Escaped(a), Escaped(b[..n]), EscapedByte(b[n]));
    }
  }

  lemma {:induction false} Regrouped(a: Bytes, b: Bytes, c: Bytes)
    ensures a + (b + c) == a + b + c
  {
  }

  lemma {:induction false} EscapedNoNul(w: Bytes)
    requires NoNul(w)
    ensures NoNul(Escaped(w))
  {
    if w != [] {
      EscapedNoNul(w[..|w| - 1]);
    }
  }

  ghost predicate AllClean(ps: seq<Pair>) {
    forall i | 0 <= i < |ps| :: Clean(ps[i])
  }

  lemma {:induction false} CleanPairText(p: Pair)
    requires Clean(p)
    ensures NoNul(PairText(p))
  {
    QuotedNoNul(p.key);
    var v := ValueText(p.val);
    assert NoNul(v) by {
      if p.val.Str? {
        QuotedNoNul(p.val.s);
      }
    }
    NoNulConcat(QuotedText(p.key), [EQUALS, GREATER]);
    NoNulConcat(QuotedText(p.key) + [EQUALS, GREATER], v);
  }

  lemma {:induction false} QuotedNoNul(w: Bytes)
    requires NoNul(w)
    ensures NoNul(QuotedText(w))
  {
    EscapedNoNul(w);
    NoNulConcat([QUOTE], Escaped(w));
    NoNulConcat([QUOTE] + Escaped(w), [QUOTE]);
  }

  lemma {:induction false} CleanPrint(ps: seq<Pair>)
    requires AllClean(ps)
    ensures NoNul(Print(ps)) && NoNul(Print(ps) + Separator(ps))
  {
    if ps != [] {
      var front, p := ps[..|ps| - 1], ps[|ps| - 1];
      assert AllClean(front) && Clean(p);
      CleanPrint(front);
      CleanPairText(p);
      NoNulConcat(Print(front) + Separator(front), PairText(p));
    }
    NoNulConcat(Print(ps), Separator(ps));
  }

  /** Where a byte 0 cuts a quoted text short. */
  lemma {:induction false} QuotedCut(w: Bytes, rest: Bytes) returns (x: Bytes, more: Bytes)
    requires !NoNul(w)
    ensures NoNul(x) && more != [] && more[0] == 0 && QuotedText(w) + rest == ([QUOTE] + Escaped(x)) + more
  {
    var i := FirstNul(w);
    x := w[..i];
    var y := [0] + w[i + 1..];
    assert w == x + y;
    EscapedConcat(x, y);
    EscapedConcat([0], w[i + 1..]);
    assert [0][..0] == [];
    more := Escaped(y) + [QUOTE] + rest;
    Assoc5([QUOTE], Escaped(x), Escaped(y), [QUOTE], rest);
  }

  lemma {:induction false} Assoc5(a: Bytes, b: Bytes, c: Bytes, d: Bytes, e: Bytes)
    ensures (a + (b + c) + d) + e == (a + b) + (c + d + e)
    ensures (a + b + c) + (d + e) == a + ((b + c + d) + e)
    ensures a + (b + (c + d + e)) == a + ((b + c + d) + e)
    ensures a + (b + c) == (a + b) + c
  {
  }

  lemma {:induction false} OpenQuote(a: Bytes, s: State, x: Bytes)
    requires Run(START, a) == s && s.mode.Word? && s.mode.st == Wait
    ensures Parse(a + ([QUOTE] + Escaped(x))) == None
  {
    var t := s.(mode := s.mode.(st := Quoted), quoted := true);
    RunOne(s, QUOTE);
    RunConcat(START, a, [QUOTE] + Escaped(x));
    RunConcat(s, [QUOTE], Escaped(x));
    RunEscaped(t, x);
    ParseIsRun(a + ([QUOTE] + Escaped(x)));
  }

  /** A byte 0 inside quotes ends the text there, and that is an error. */
  lemma {:induction false} NulInQuotes(a: Bytes, s: State, w: Bytes, rest: Bytes)
    requires NoNul(a) && Run(START, a) == s && s.mode.Word? && s.mode.st == Wait && !NoNul(w)
    ensures Parse(CStr(a + (QuotedText(w) + rest))) == None
  {
    var x, more := QuotedCut(w, rest);
    var q := [QUOTE] + Escaped(x);
    OpenQuote(a, s, x);
    EscapedNoNul(x);
    assert NoNul(q) && NoNul(a + q);
    CStrOf(a + q, more);
    Assoc5(a, q, more, [], []);
  }

  lemma {:induction false} FirstNul(w: Bytes) returns (i: nat)
    requires !NoNul(w)
    ensures i < |w| && w[i] == 0 && NoNul(w[..i])
  {
    i := 0;
    while w[i] != 0
      invariant i < |w| && NoNul(w[..i]) && 0 in w[i..]
      decreases |w| - i
    {
      Snoc(w, i);
      assert w[i..] == [w[i]] + w[i + 1..];
      i := i + 1;
    }
  }

  lemma {:induction false} NulInPair(a: Bytes, s: State, p: Pair, rest: Bytes)
    requires NoNul(a) && Run(START, a) == s == Waiting(s.pairs) && Short(p) && !Clean(p)
    ensures Parse(CStr(a + (PairText(p) + rest))) == None
  {
    var k, arrow, v := QuotedText(p.key), [EQUALS, GREATER], ValueText(p.val);
    Assoc5(a, k, arrow, v, rest);
    if NoNul(p.key) {
      EscapedNoNul(p.key);
      var b, t := a + k + arrow, State(Eq, [], false, p.key, s.pairs);
      RunQuoted(s, p.key);
      RunConcat(START, a, k);
      RunConcat(START, a + k, arrow);
      RunArrow(t);
      assert NoNul(b);
      NulInQuotes(b, t.(mode := Word(Wait, true)), p.val.s, rest);
    } else {
      NulInQuotes(a, s, p.key, arrow + v + rest);
    }
  }

  lemma {:induction false} PrintPrefix(ps: seq<Pair>, i: nat)
    requires i <= |ps|
    ensures Print(ps[..i]) <= Print(ps)
    decreases |ps|
  {
    if i < |ps| {
      PrintPrefix(ps[..|ps| - 1], i);
      assert ps[..|ps| - 1][..i] == ps[..i];
    } else {
      assert ps[..i] == ps;
    }
  }

  lemma {:induction false} Remainder(a: Bytes, b: Bytes) returns (rest: Bytes)
    requires a <= b
    ensures b == a + rest
  {
    rest := b[|a|..];
  }

  lemma {:induction false} FirstUnclean(ps: seq<Pair>) returns (i: nat)
    requires !AllClean(ps)
    ensures i < |ps| && !Clean(ps[i]) && AllClean(ps[..i])
  {
    i := 0;
    while Clean(ps[i])
      invariant i < |ps| && (forall j | 0 <= j < i :: Clean(ps[j]))
      invariant exists j :: i <= j < |ps| && !Clean(ps[j])
      decreases |ps| - i
    {
      i := i + 1;
    }
  }

  /** The text of a value with a byte 0 in it is no hstore text. */
  lemma {:induction false} UncleanIsRejected(ps: seq<Pair>)
    requires AllShort(ps)
    requires !AllClean(ps)
    ensures Parse(CStr(Print(ps))) == None
  {
    var i := FirstUnclean(ps);
    var front := ps[..i];
    var a, rest := PrintSplit(ps, i);
    assert AllShort(front) && Short(ps[i]);
    CleanPrint(front);
    LeadRuns(front, a);
    NulInPair(a, Waiting(front), ps[i], rest);
  }

  lemma {:induction false} LeadRuns(front: seq<Pair>, a: Bytes)
    requires a == Print(front) + Separator(front) && AllShort(front)
    ensures Run(START, a) == Waiting(front)
  {
    if front != [] {
      RunPrinted(front);
    }
    RunLead(front);
  }

  /** What is printed before a pair, and after it. */
  lemma {:induction false} PrintSplit(ps: seq<Pair>, i: nat) returns (a: Bytes, rest: Bytes)
    requires i < |ps|
    ensures Print(ps) == a + (PairText(ps[i]) + rest) && a == Print(ps[..i]) + Separator(ps[..i])
  {
    var upTo := Print(ps[..i + 1]);
    a := Print(ps[..i]) + Separator(ps[..i]);
    assert upTo == a + PairText(ps[i]) by {
      Snoc(ps, i);
    }
    assert upTo <= Print(ps) by {
      PrintPrefix(ps, i + 1);
    }
    rest := Remainder(upTo, Print(ps));
    Assoc5(a, PairText(ps[i]), rest, [], []);
  }

  /** Printing and reading back gives the same pairs exactly when no byte 0 is in them. */
  lemma {:induction false} PrintReadsBackExactly(ps: seq<Pair>)
    requires AllShort(ps)
    ensures Parse(CStr(Print(ps))) == if AllClean(ps) then Some(ps) else None
  {
    if AllClean(ps) {
      CleanPrint(ps);
      CStrOf(Print(ps), []);
      assert Print(ps) + [] == Print(ps);
      PrintedPairsReadBack(ps);
    } else {
      UncleanIsRejected(ps);
    }
  }
}
