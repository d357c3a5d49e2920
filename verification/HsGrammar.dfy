/**
  The syntax of hstore text: every way to write a list of pairs. The automaton
  accepts exactly the texts written so, and reads the pairs they write.
 */
module HsGrammar {
  import opened HsLayout
  import opened HsPairs
  import opened HsText

  /** A character of a word, as it is or behind a backslash. */
  datatype Ch = Ch(c: Byte, slash: bool)

  /** A word, bare or in quotes. */
  datatype Spelling = Spelling(quoted: bool, chs: seq<Ch>)

  /** A pair with the white space around it: before the key, before and after the arrow, after the value. */
  datatype Item = Item(lead: Bytes, key: Spelling, mid: Bytes, gap: Bytes, val: Spelling, trail: Bytes)

  /** Pairs each followed by a comma, and then a last pair or only white space. */
  datatype Phrase = Phrase(items: seq<Item>, last: Option<Item>, blank: Bytes)

  // ----- The text

  function ChText(x: Ch): Bytes {
    if x.slash then [BACKSLASH, x.c] else [x.c]
  }

  function ChsText(xs: seq<Ch>): Bytes {
    if xs == [] then [] else ChsText(xs[..|xs| - 1]) + ChText(xs[|xs| - 1])
  }

  function Quote(sp: Spelling): Bytes {
    if sp.quoted then [QUOTE] else []
  }

  function OpenText(sp: Spelling): Bytes {
    Quote(sp) + ChsText(sp.chs)
  }

  function SpellingText(sp: Spelling): Bytes {
    OpenText(sp) + Quote(sp)
  }

  function KeyText(lead: Bytes, key: Spelling, mid: Bytes): Bytes {
    lead + SpellingText(key) + mid
  }

  function ArrowText(lead: Bytes, key: Spelling, mid: Bytes, gap: Bytes): Bytes {
    KeyText(lead, key, mid) + [EQUALS, GREATER] + gap
  }

  function ItemText(x: Item): Bytes {
    ArrowText(x.lead, x.key, x.mid, x.gap) + SpellingText(x.val) + x.trail
  }

  function ItemsText(xs: seq<Item>): Bytes {
    if xs == [] then [] else ItemsText(xs[..|xs| - 1]) + (ItemText(xs[|xs| - 1]) + [COMMA])
  }

  function PhraseText(ph: Phrase): Bytes {
    ItemsText(ph.items) + if ph.last.Some? then ItemText(ph.last.value) else ph.blank
  }

  // ----- What may be written

  /** Tab, newline, vertical tab, form feed, carriage return and space. */
  predicate White(c: Byte) {
    c in {9, 10, 11, 12, 13, 32}
  }

  ghost predicate Spaces(ws: Bytes) {
    forall i | 0 <= i < |ws| :: White(ws[i])
  }

  /** Whether a character may stand without a backslash. */
  predicate Plain(c: Byte, first: bool, quoted: bool, isVal: bool) {
    if quoted then c != QUOTE && c != BACKSLASH
    else && c != BACKSLASH && !White(c)
         && if first then c != QUOTE && (c != EQUALS || isVal) else c != if isVal then COMMA else EQUALS
  }

  predicate ChsOk(xs: seq<Ch>, quoted: bool, isVal: bool) {
    xs == [] || (ChsOk(xs[..|xs| - 1], quoted, isVal) && (xs[|xs| - 1].slash || Plain(xs[|xs| - 1].c, |xs| == 1, quoted, isVal)))
  }

  predicate SpellingOk(sp: Spelling, isVal: bool) {
    ChsOk(sp.chs, sp.quoted, isVal) && (sp.quoted || sp.chs != []) && |sp.chs| <= HSTORE_MAX_LEN
  }

  ghost predicate ItemOk(x: Item) {
    Spaces(x.lead) && SpellingOk(x.key, false) && Spaces(x.mid) && Spaces(x.gap) && SpellingOk(x.val, true) && Spaces(x.trail)
  }

  ghost predicate ItemsOk(xs: seq<Item>) {
    xs == [] || (ItemsOk(xs[..|xs| - 1]) && ItemOk(xs[|xs| - 1]))
  }

  ghost predicate PhraseOk(ph: Phrase) {
    && ItemsOk(ph.items)
    && (if ph.last.Some? then ItemOk(ph.last.value) else Spaces(ph.blank))
  }

  // ----- What it means

  function WordOf(xs: seq<Ch>): (w: Bytes)
    ensures |w| == |xs|
  {
    if xs == [] then [] else WordOf(xs[..|xs| - 1]) + [xs[|xs| - 1].c]
  }

  /** Only a bare word can be a null. */
  function PairOf(x: Item): Pair {
    Pair(WordOf(x.key.chs), WordValue(WordOf(x.val.chs), x.val.quoted))
  }

  function PairsOf(xs: seq<Item>): seq<Pair> {
    if xs == [] then [] else PairsOf(xs[..|xs| - 1]) + [PairOf(xs[|xs| - 1])]
  }

  function PhrasePairs(ph: Phrase): seq<Pair> {
    PairsOf(ph.items) + if ph.last.Some? then [PairOf(ph.last.value)] else []
  }

  /** A phrase writes a null exactly for a bare value whose letters in lower case are "null". */
  lemma {:induction false} NullIsBare(x: Item)
    ensures var w := WordOf(x.val.chs);
            PairOf(x).val == if !x.val.quoted && Lowered(w) == [110, 117, 108, 108] then Null else Str(w)
  {
    NullInAnyCase(WordOf(x.val.chs));
  }

  // ----- Every text so written is read

  lemma {:induction false} RunSpaces(s: State, ws: Bytes)
    requires Spaces(ws) && (s.mode.Eq? || s.mode.Del? || (s.mode.Word? && s.mode.st == Wait))
    ensures Run(s, ws) == s
  {
    if ws != [] {
      RunSpaces(s, ws[..|ws| - 1]);
    }
  }

  /** The state in a word whose characters so far are xs. */
  function Inside(xs: seq<Ch>, quoted: bool, isVal: bool, key: Bytes, prs: seq<Pair>): State {
    State(Word(if quoted then Quoted else if xs == [] then Wait else In, isVal), WordOf(xs), quoted, key, prs)
  }

  lemma {:induction false} RunChs(xs: seq<Ch>, quoted: bool, isVal: bool, key: Bytes, prs: seq<Pair>)
    requires ChsOk(xs, quoted, isVal)
    ensures Run(Inside([], quoted, isVal, key, prs), ChsText(xs)) == Inside(xs, quoted, isVal, key, prs)
  {
    if xs != [] {
      var front, x := xs[..|xs| - 1], xs[|xs| - 1];
      var s := Inside([], quoted, isVal, key, prs);
      RunChs(front, quoted, isVal, key, prs);
      RunConcat(s, ChsText(front), ChText(x));
      RunCh(front, x, quoted, isVal, key, prs);
      Snoc(xs, |xs| - 1);
    }
  }

  lemma {:induction false} RunCh(front: seq<Ch>, x: Ch, quoted: bool, isVal: bool, key: Bytes, prs: seq<Pair>)
    requires x.slash || Plain(x.c, front == [], quoted, isVal)
    ensures Run(Inside(front, quoted, isVal, key, prs), ChText(x)) == Inside(front + [x], quoted, isVal, key, prs)
  {
    var s := Inside(front, quoted, isVal, key, prs);
    assert (front + [x])[..|front + [x]| - 1] == front;
    RunOne(s, x.c);
    if x.slash {
      assert [BACKSLASH, x.c] == [BACKSLASH] + [x.c];
      RunOne(s, BACKSLASH);
      RunConcat(s, [BACKSLASH], [x.c]);
      RunOne(Step(s, BACKSLASH), x.c);
    }
  }

  /** At the end of a word: ended by its quote, or bare and still open. */
  function Ended(sp: Spelling, isVal: bool, key: Bytes, prs: seq<Pair>): State {
    var s := Inside(sp.chs, sp.quoted, isVal, key, prs);
    if sp.quoted then EndWord(s) else s
  }

  lemma {:induction false} RunSpelling(sp: Spelling, isVal: bool, key: Bytes, prs: seq<Pair>)
    requires SpellingOk(sp, isVal)
    ensures Run(State(Word(Wait, isVal), [], false, key, prs), SpellingText(sp)) == Ended(sp, isVal, key, prs)
  {
    var s := State(Word(Wait, isVal), [], false, key, prs);
    var t := Inside([], sp.quoted, isVal, key, prs);
    assert Run(s, Quote(sp)) == t by {
      RunOne(s, QUOTE);
    }
    RunConcat(s, Quote(sp), ChsText(sp.chs));
    RunChs(sp.chs, sp.quoted, isVal, key, prs);
    RunConcat(s, OpenText(sp), Quote(sp));
    RunOne(Inside(sp.chs, sp.quoted, isVal, key, prs), QUOTE);
  }

  /** White space behind a word ends it if it is still open. */
  lemma {:induction false} RunBehind(sp: Spelling, isVal: bool, key: Bytes, prs: seq<Pair>, ws: Bytes)
    requires SpellingOk(sp, isVal) && Spaces(ws)
    ensures var s := Inside(sp.chs, sp.quoted, isVal, key, prs);
            Run(Ended(sp, isVal, key, prs), ws) == if sp.quoted || ws != [] then EndWord(s) else s
  {
    var s, e := Ended(sp, isVal, key, prs), EndWord(Inside(sp.chs, sp.quoted, isVal, key, prs));
    if sp.quoted {
      RunSpaces(s, ws);
    } else if ws != [] {
      assert ws == [ws[0]] + ws[1..];
      RunConcat(s, [ws[0]], ws[1..]);
      RunOne(s, ws[0]);
      RunSpaces(e, ws[1..]);
    }
  }

  /** White space and then the character that must follow. */
  lemma {:induction false} RunToNext(sp: Spelling, isVal: bool, key: Bytes, prs: seq<Pair>, ws: Bytes)
    requires SpellingOk(sp, isVal) && Spaces(ws)
    ensures var c := if isVal then COMMA else EQUALS;
            Run(Ended(sp, isVal, key, prs), ws + [c]) == StepBetween(EndWord(Inside(sp.chs, sp.quoted, isVal, key, prs)), c)
    ensures isVal ==> End(Run(Ended(sp, isVal, key, prs), ws)) == Some(prs + [Pair(key, WordValue(WordOf(sp.chs), sp.quoted))])
  {
    var s, c := Ended(sp, isVal, key, prs), if isVal then COMMA else EQUALS;
    RunBehind(sp, isVal, key, prs, ws);
    RunConcat(s, ws, [c]);
    RunOne(Run(s, ws), c);
  }

  /** From the start of a pair to its value. */
  lemma {:induction false} RunArrowText(lead: Bytes, key: Spelling, mid: Bytes, gap: Bytes, prs: seq<Pair>)
    requires Spaces(lead) && SpellingOk(key, false) && Spaces(mid) && Spaces(gap)
    ensures Run(Waiting(prs), ArrowText(lead, key, mid, gap)) == State(Word(Wait, true), [], false, WordOf(key.chs), prs)
  {
    var s, k := Waiting(prs), SpellingText(key);
    var t := State(Gt, [], false, WordOf(key.chs), prs);
    RunSpaces(s, lead);
    RunConcat(s, lead, k);
    RunSpelling(key, false, [], prs);
    RunConcat(s, lead + k, mid + [EQUALS]);
    RunToNext(key, false, [], prs, mid);
    RunConcat(s, lead + k + (mid + [EQUALS]), [GREATER]);
    RunOne(t, GREATER);
    RunConcat(s, lead + k + (mid + [EQUALS]) + [GREATER], gap);
    RunSpaces(t.(mode := Word(Wait, true)), gap);
    ArrowParts(lead, k, mid, gap);
  }

  lemma {:induction false} ArrowParts(lead: Bytes, k: Bytes, mid: Bytes, gap: Bytes)
    ensures lead + k + (mid + [EQUALS]) + [GREATER] + gap == lead + k + mid + [EQUALS, GREATER] + gap
  {
  }

  /** A pair is read to its end, or to the comma after it. */
  lemma {:induction false} RunItem(x: Item, prs: seq<Pair>)
    requires ItemOk(x)
    ensures Run(Waiting(prs), ItemText(x) + [COMMA]) == Waiting(prs + [PairOf(x)])
    ensures End(Run(Waiting(prs), ItemText(x))) == Some(prs + [PairOf(x)])
  {
    var s, a, v := Waiting(prs), ArrowText(x.lead, x.key, x.mid, x.gap), SpellingText(x.val);
    var k := WordOf(x.key.chs);
    RunArrowText(x.lead, x.key, x.mid, x.gap, prs);
    RunConcat(s, a, v);
    RunSpelling(x.val, true, k, prs);
    RunToNext(x.val, true, k, prs, x.trail);
    RunConcat(s, a + v, x.trail);
    RunConcat(s, a + v, x.trail + [COMMA]);
    Regrouped(a + v, x.trail, [COMMA]);
  }

  lemma {:induction false} RunItems(xs: seq<Item>)
    requires ItemsOk(xs)
    ensures Run(START, ItemsText(xs)) == Waiting(PairsOf(xs))
  {
    if xs != [] {
      var front, x := xs[..|xs| - 1], xs[|xs| - 1];
      RunItems(front);
      RunItem(x, PairsOf(front));
      RunConcat(START, ItemsText(front), ItemText(x) + [COMMA]);
    }
  }

  /** Whatever is written by the syntax means the pairs it writes, and is read as them if there is room for them. */
  lemma {:induction false} PhraseIsRead(ph: Phrase)
    requires PhraseOk(ph)
    ensures Parse(PhraseText(ph)) == Some(PhrasePairs(ph))
    ensures ReadText(PhraseText(ph)) == if Admissible(PhrasePairs(ph)) then Some(PhrasePairs(ph)) else None
  {
    var prs := PairsOf(ph.items);
    ParseIsRun(PhraseText(ph));
    RunItems(ph.items);
    if ph.last.Some? {
      RunConcat(START, ItemsText(ph.items), ItemText(ph.last.value));
      RunItem(ph.last.value, prs);
    } else {
      RunConcat(START, ItemsText(ph.items), ph.blank);
      RunSpaces(Waiting(prs), ph.blank);
      assert prs + [] == prs;
    }
  }

  // ----- Every text that is read is so written

  /** How far a pair has got when a text ends in the middle of it. */
  datatype Part =
    | AtKey(lead: Bytes)
    | InKey(lead: Bytes, sp: Spelling, esc: bool)
    | PastKey(lead: Bytes, key: Spelling, mid: Bytes)
    | HalfArrow(lead: Bytes, key: Spelling, mid: Bytes)
    | AtVal(lead: Bytes, key: Spelling, mid: Bytes, gap: Bytes)
    | InVal(lead: Bytes, key: Spelling, mid: Bytes, gap: Bytes, sp: Spelling, esc: bool)
    | PastVal(item: Item)

  /** A word in the middle, perhaps right behind a backslash. */
  function WordText(sp: Spelling, esc: bool): Bytes {
    OpenText(sp) + if esc then [BACKSLASH] else []
  }

  predicate WordOk(sp: Spelling, esc: bool, isVal: bool) {
    ChsOk(sp.chs, sp.quoted, isVal) && (sp.quoted || sp.chs != [] || esc)
  }

  function WordState(sp: Spelling, esc: bool, isVal: bool, key: Bytes, prs: seq<Pair>): State {
    var s := Inside(sp.chs, sp.quoted, isVal, key, prs);
    if esc then s.(mode := Word(if sp.quoted then QuotedEscape else Escape, isVal)) else s
  }

  function PartText(p: Part): Bytes {
    match p
    case AtKey(lead) => lead
    case InKey(lead, sp, esc) => lead + WordText(sp, esc)
    case PastKey(lead, key, mid) => KeyText(lead, key, mid)
    case HalfArrow(lead, key, mid) => KeyText(lead, key, mid) + [EQUALS]
    case AtVal(lead, key, mid, gap) => ArrowText(lead, key, mid, gap)
    case InVal(lead, key, mid, gap, sp, esc) => ArrowText(lead, key, mid, gap) + WordText(sp, esc)
    case PastVal(item) => ItemText(item)
  }

  ghost predicate PartOk(p: Part) {
    match p
    case AtKey(lead) => Spaces(lead)
    case InKey(lead, sp, esc) => Spaces(lead) && WordOk(sp, esc, false)
    case PastKey(lead, key, mid) => Spaces(lead) && SpellingOk(key, false) && Spaces(mid)
    case HalfArrow(lead, key, mid) => Spaces(lead) && SpellingOk(key, false) && Spaces(mid)
    case AtVal(lead, key, mid, gap) => Spaces(lead) && SpellingOk(key, false) && Spaces(mid) && Spaces(gap)
    case InVal(lead, key, mid, gap, sp, esc) =>
      Spaces(lead) && SpellingOk(key, false) && Spaces(mid) && Spaces(gap) && WordOk(sp, esc, true)
    case PastVal(item) => ItemOk(item)
  }

  function PartState(p: Part, prs: seq<Pair>): State {
    match p
    case AtKey(_) => Waiting(prs)
    case InKey(_, sp, esc) => WordState(sp, esc, false, [], prs)
    case PastKey(_, key, _) => State(Eq, [], false, WordOf(key.chs), prs)
    case HalfArrow(_, key, _) => State(Gt, [], false, WordOf(key.chs), prs)
    case AtVal(_, key, _, _) => State(Word(Wait, true), [], false, WordOf(key.chs), prs)
    case InVal(_, key, _, _, sp, esc) => WordState(sp, esc, true, WordOf(key.chs), prs)
    case PastVal(item) => State(Del, [], false, [], prs + [PairOf(item)])
  }

  /** The first character of a word. */
  lemma {:induction false} StartWord(isVal: bool, key: Bytes, prs: seq<Pair>, c: Byte) returns (sp: Spelling, esc: bool)
    requires !IsSpace(c) && (c != EQUALS || isVal)
    ensures WordOk(sp, esc, isVal) && WordText(sp, esc) == [c]
    ensures WordState(sp, esc, isVal, key, prs) == Step(State(Word(Wait, isVal), [], false, key, prs), c)
  {
    if c == QUOTE {
      sp, esc := Spelling(true, []), false;
    } else if c == BACKSLASH {
      sp, esc := Spelling(false, []), true;
    } else {
      sp, esc := Spelling(false, [Ch(c, false)]), false;
      assert [Ch(c, false)][..0] == [] && !White(c);
      assert ChsText(sp.chs) == [] + [c] == [c];
    }
  }

  /** A word is ended by its closing quote, or if bare by white space or the character that must follow. */
  predicate Ends(sp: Spelling, esc: bool, isVal: bool, c: Byte) {
    !esc && if sp.quoted then c == QUOTE else IsSpace(c) || c == if isVal then COMMA else EQUALS
  }

  /** Any other character belongs to the word. */
  lemma {:induction false} GrowWord(sp: Spelling, esc: bool, isVal: bool, key: Bytes, prs: seq<Pair>, c: Byte) returns (sp': Spelling, esc': bool)
    requires WordOk(sp, esc, isVal) && !Ends(sp, esc, isVal, c)
    ensures WordOk(sp', esc', isVal) && WordText(sp', esc') == WordText(sp, esc) + [c]
    ensures WordState(sp', esc', isVal, key, prs) == Step(WordState(sp, esc, isVal, key, prs), c)
  {
    if !esc && c == BACKSLASH {
      sp', esc' := sp, true;
    } else {
      var more := sp.chs + [Ch(c, esc)];
      sp', esc' := sp.(chs := more), false;
      assert more[..|more| - 1] == sp.chs;
      AppendText(Quote(sp), ChsText(sp.chs), [BACKSLASH], c);
    }
  }

  lemma {:induction false} AppendText(a: Bytes, b: Bytes, d: Bytes, c: Byte)
    requires |d| == 1
    ensures a + (b + [c]) == a + b + [] + [c]
    ensures a + (b + [d[0], c]) == a + b + d + [c]
  {
  }

  /** One more character leads from one part to the next; a comma may complete a pair. */
  ghost predicate Moves(p: Part, prs: seq<Pair>, c: Byte, p': Part, done: Option<Item>) {
    && PartOk(p')
    && match done
       case None => PartText(p') == PartText(p) + [c] && PartState(p', prs) == Step(PartState(p, prs), c)
       case Some(item) =>
         && ItemOk(item) && ItemText(item) + [COMMA] + PartText(p') == PartText(p) + [c]
         && PartState(p', prs + [PairOf(item)]) == Step(PartState(p, prs), c)
  }

  /** So does every character of a text that is not in error. */
  lemma {:induction false} Advance(p: Part, prs: seq<Pair>, c: Byte) returns (p': Part, done: Option<Item>)
    requires PartOk(p) && !Step(PartState(p, prs), c).mode.Fail?
    ensures Moves(p, prs, c, p', done)
  {
    done := None;
    match p {
      case AtKey(lead) =>
        if IsSpace(c) {
          p' := AtKey(lead + [c]);
        } else {
          var sp, esc := StartWord(false, [], prs, c);
          p' := InKey(lead, sp, esc);
        }
      case InKey(lead, sp, esc) =>
        p' := AdvanceInKey(lead, sp, esc, prs, c);
      case AtVal(lead, key, mid, gap) =>
        p' := AdvanceAtVal(lead, key, mid, gap, prs, c);
      case InVal(lead, key, mid, gap, sp, esc) =>
        p', done := AdvanceInVal(p, prs, c);
      case _ =>
        p', done := AdvancePast(p, prs, c);
    }
  }

  lemma {:induction false} AdvancePast(p: Part, prs: seq<Pair>, c: Byte) returns (p': Part, done: Option<Item>)
    requires (p.PastKey? || p.HalfArrow? || p.PastVal?) && PartOk(p) && !Step(PartState(p, prs), c).mode.Fail?
    ensures Moves(p, prs, c, p', done)
  {
    done := None;
    match p {
      case PastKey(lead, key, mid) =>
        p' := if c == EQUALS then HalfArrow(lead, key, mid) else PastKey(lead, key, mid + [c]);
        AppendText(lead + SpellingText(key), mid, [c], c);
      case HalfArrow(lead, key, mid) =>
        p' := AtVal(lead, key, mid, []);
        AppendText(KeyText(lead, key, mid), [], [EQUALS], GREATER);
      case PastVal(item) =>
        if c == COMMA {
          p', done := AtKey([]), Some(item);
          assert ItemText(item) + [COMMA] + [] == ItemText(item) + [c];
        } else {
          p' := PastVal(item.(trail := item.trail + [c]));
          AppendText(ArrowText(item.lead, item.key, item.mid, item.gap) + SpellingText(item.val), item.trail, [c], c);
        }
    }
  }

  lemma {:induction false} AdvanceInKey(lead: Bytes, sp: Spelling, esc: bool, prs: seq<Pair>, c: Byte) returns (p': Part)
    requires PartOk(InKey(lead, sp, esc)) && !Step(WordState(sp, esc, false, [], prs), c).mode.Fail?
    ensures PartOk(p') && PartText(p') == PartText(InKey(lead, sp, esc)) + [c]
    ensures PartState(p', prs) == Step(WordState(sp, esc, false, [], prs), c)
  {
    if !Ends(sp, esc, false, c) {
      var sp', esc' := GrowWord(sp, esc, false, [], prs, c);
      p' := InKey(lead, sp', esc');
    } else if sp.quoted {
      p' := PastKey(lead, sp, []);
      EndText(lead, sp, []);
    } else if c == EQUALS {
      p' := HalfArrow(lead, sp, []);
      EndText(lead, sp, []);
    } else {
      p' := PastKey(lead, sp, [c]);
      EndText(lead, sp, [c]);
    }
  }

  lemma {:induction false} EndText(a: Bytes, sp: Spelling, ws: Bytes)
    ensures sp.quoted ==> a + SpellingText(sp) + [] == a + WordText(sp, false) + [QUOTE]
    ensures !sp.quoted ==> a + SpellingText(sp) + ws == a + WordText(sp, false) + ws
  {
  }

  lemma {:induction false} AdvanceAtVal(lead: Bytes, key: Spelling, mid: Bytes, gap: Bytes, prs: seq<Pair>, c: Byte) returns (p': Part)
    requires PartOk(AtVal(lead, key, mid, gap))
    ensures PartOk(p') && PartText(p') == PartText(AtVal(lead, key, mid, gap)) + [c]
    ensures PartState(p', prs) == Step(PartState(AtVal(lead, key, mid, gap), prs), c)
  {
    if IsSpace(c) {
      p' := AtVal(lead, key, mid, gap + [c]);
      AppendText(KeyText(lead, key, mid) + [EQUALS, GREATER], gap, [c], c);
    } else {
      var sp, esc := StartWord(true, WordOf(key.chs), prs, c);
      p' := InVal(lead, key, mid, gap, sp, esc);
    }
  }

  lemma {:induction false} AdvanceInVal(p: Part, prs: seq<Pair>, c: Byte) returns (p': Part, done: Option<Item>)
    requires p.InVal? && PartOk(p) && !Step(PartState(p, prs), c).mode.Fail?
    ensures Moves(p, prs, c, p', done)
  {
    if !Ends(p.sp, p.esc, true, c) {
      var sp', esc' := GrowWord(p.sp, p.esc, true, WordOf(p.key.chs), prs, c);
      p', done := InVal(p.lead, p.key, p.mid, p.gap, sp', esc'), None;
    } else {
      p', done := EndVal(p, prs, c);
    }
  }

  /** The value ends: at its closing quote, at a comma or at white space. */
  lemma {:induction false} EndVal(p: Part, prs: seq<Pair>, c: Byte) returns (p': Part, done: Option<Item>)
    requires p.InVal? && PartOk(p) && Ends(p.sp, p.esc, true, c) && !Step(PartState(p, prs), c).mode.Fail?
    ensures Moves(p, prs, c, p', done)
  {
    var a, item := ArrowText(p.lead, p.key, p.mid, p.gap), Item(p.lead, p.key, p.mid, p.gap, p.sp, []);
    done := None;
    if p.sp.quoted {
      p' := PastVal(item);
      EndText(a, p.sp, []);
    } else if c == COMMA {
      p', done := AtKey([]), Some(item);
      EndText(a, p.sp, []);
    } else {
      p' := PastVal(item.(trail := [c]));
      EndText(a, p.sp, [c]);
    }
  }

  lemma {:induction false} OneMoreItem(xs: seq<Item>, x: Item, rest: Bytes)
    ensures ItemsText(xs + [x]) + rest == ItemsText(xs) + (ItemText(x) + [COMMA] + rest)
    ensures PairsOf(xs + [x]) == PairsOf(xs) + [PairOf(x)]
    ensures ItemsOk(xs + [x]) <==> ItemsOk(xs) && ItemOk(x)
  {
    assert (xs + [x])[..|xs + [x]| - 1] == xs;
    Assoc5(ItemsText(xs), ItemText(x) + [COMMA], rest, [], []);
  }

  ghost predicate Explained(t: Bytes, items: seq<Item>, p: Part, s: State) {
    && ItemsOk(items) && PartOk(p)
    && t == ItemsText(items) + PartText(p) && s == PartState(p, PairsOf(items))
  }

  lemma {:induction false} ExplainOneMore(front: Bytes, t: Bytes, s: State, s': State, xs: seq<Item>, q: Part, c: Byte)
    returns (items: seq<Item>, p: Part)
    requires Explained(front, xs, q, s) && t == front + [c] && s' == Step(s, c) && !s'.mode.Fail?
    ensures Explained(t, items, p, s')
  {
    var done;
    p, done := Advance(q, PairsOf(xs), c);
    Assoc5(ItemsText(xs), PartText(q), [c], [], []);
    if done.None? {
      items := xs;
    } else {
      items := xs + [done.value];
      OneMoreItem(xs, done.value, PartText(p));
    }
  }

  lemma {:induction false} Explain(t: Bytes) returns (items: seq<Item>, p: Part)
    requires !Run(START, t).mode.Fail?
    ensures Explained(t, items, p, Run(START, t))
  {
    if t == [] {
      items, p := [], AtKey([]);
    } else {
      var front, c := t[..|t| - 1], t[|t| - 1];
      Snoc(t, |t| - 1);
      var xs, q := Explain(front);
      items, p := ExplainOneMore(front, t, Run(START, front), Run(START, t), xs, q, c);
    }
  }

  /** Where a text may end, it is complete. */
  lemma {:induction false} Complete(t: Bytes, items: seq<Item>, p: Part, s: State) returns (ph: Phrase)
    requires Explained(t, items, p, s) && End(s).Some?
    ensures PhraseOk(ph) && PhraseText(ph) == t
  {
    if p.AtKey? {
      ph := Phrase(items, None, p.lead);
    } else if p.PastVal? {
      ph := Phrase(items, Some(p.item), []);
    } else {
      var item := EndedItem(p, PairsOf(items));
      ph := Phrase(items, Some(item), []);
    }
  }

  /** A bare value that the end of the text ends. */
  lemma {:induction false} EndedItem(p: Part, prs: seq<Pair>) returns (item: Item)
    requires PartOk(p) && !p.AtKey? && !p.PastVal? && End(PartState(p, prs)).Some?
    ensures ItemOk(item) && ItemText(item) == PartText(p)
  {
    EndText(ArrowText(p.lead, p.key, p.mid, p.gap), p.sp, []);
    item := Item(p.lead, p.key, p.mid, p.gap, p.sp, []);
  }

  /** Whatever has a meaning was written by the syntax. */
  lemma {:induction false} ReadIsPhrase(t: Bytes) returns (ph: Phrase)
    requires Parse(t).Some?
    ensures PhraseOk(ph) && PhraseText(ph) == t && Parse(t) == Some(PhrasePairs(ph))
  {
    ParseIsRun(t);
    var items, p := Explain(t);
    ph := Complete(t, items, p, Run(START, t));
    PhraseIsRead(ph);
  }

  /** A text is accepted exactly if the syntax writes it and there is room for the pairs it writes, and then as these pairs. */
  lemma {:induction false} ParseIsExact(t: Bytes, ps: seq<Pair>)
    ensures Parse(t) == Some(ps) <==> exists ph :: PhraseOk(ph) && PhraseText(ph) == t && PhrasePairs(ph) == ps
    ensures ReadText(t) == Some(ps) <==> Admissible(ps) && exists ph :: PhraseOk(ph) && PhraseText(ph) == t && PhrasePairs(ph) == ps
  {
    if Parse(t) == Some(ps) {
      var ph := ReadIsPhrase(t);
      assert PhrasePairs(ph) == ps;
    }
    forall ph | PhraseOk(ph) && PhraseText(ph) == t ensures Parse(t) == Some(PhrasePairs(ph)) {
      PhraseIsRead(ph);
    }
  }
}
