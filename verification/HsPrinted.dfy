/**
  The text hstore_out prints, contrib/hstore/hstore_io.c, as a phrase of the syntax:
  quoted words with no backslash that could be spared, a bare NULL, and a comma and
  a space between pairs.
 */
module HsPrinted {
  import opened HsLayout
  import opened HsPairs
  import opened HsText
  import opened HsGrammar

  lemma {:induction false} ChsSnoc(front: seq<Ch>, x: Ch, quoted: bool, isVal: bool)
    ensures ChsText(front + [x]) == ChsText(front) + ChText(x) && WordOf(front + [x]) == WordOf(front) + [x.c]
    ensures ChsOk(front + [x], quoted, isVal) <==> ChsOk(front, quoted, isVal) && (x.slash || Plain(x.c, front == [], quoted, isVal))
  {
    assert (front + [x])[..|front + [x]| - 1] == front;
  }

  // ----- Words

  /** The spelling with a backslash before quotes and backslashes only. */
  function QuotedChs(w: Bytes): seq<Ch> {
    if w == [] then [] else QuotedChs(w[..|w| - 1]) + [Ch(w[|w| - 1], w[|w| - 1] in {34, 92})]
  }

  lemma {:induction false} EscapedText(w: Bytes)
    ensures ChsText(QuotedChs(w)) == Escaped(w)
  {
    if w != [] {
      var front, c := w[..|w| - 1], w[|w| - 1];
      EscapedText(front);
      ChsSnoc(QuotedChs(front), Ch(c, c in {34, 92}), true, true);
    }
  }

  lemma {:induction false} EscapedWord(w: Bytes, isVal: bool)
    ensures WordOf(QuotedChs(w)) == w && ChsOk(QuotedChs(w), true, isVal)
  {
    if w != [] {
      var front, c := w[..|w| - 1], w[|w| - 1];
      EscapedWord(front, isVal);
      ChsSnoc(QuotedChs(front), Ch(c, c in {34, 92}), true, isVal);
      assert w == front + [c];
    }
  }

  lemma {:induction false} EscapedIsSpelling(w: Bytes, isVal: bool)
    ensures ChsText(QuotedChs(w)) == Escaped(w) && WordOf(QuotedChs(w)) == w && ChsOk(QuotedChs(w), true, isVal)
  {
    EscapedText(w);
    EscapedWord(w, isVal);
  }

  /** No quoted spelling of a word is shorter than the one printed, and no other is as short. */
  lemma {:induction false} EscapedIsShortest(xs: seq<Ch>, isVal: bool)
    requires ChsOk(xs, true, isVal)
    ensures |Escaped(WordOf(xs))| <= |ChsText(xs)|
    ensures |Escaped(WordOf(xs))| == |ChsText(xs)| ==> xs == QuotedChs(WordOf(xs))
  {
    if xs != [] {
      var front, x := xs[..|xs| - 1], xs[|xs| - 1];
      EscapedIsShortest(front, isVal);
      assert WordOf(xs)[..|xs| - 1] == WordOf(front);
      assert xs == front + [x];
    }
  }

  const NULL_CHS: seq<Ch> := [Ch(78, false), Ch(85, false), Ch(76, false), Ch(76, false)]

  lemma {:induction false} NullSpelled()
    ensures ChsText(NULL_CHS) == NULL_TEXT == WordOf(NULL_CHS) && ChsOk(NULL_CHS, false, true)
  {
    var a, b, c, d := NULL_CHS[0], NULL_CHS[1], NULL_CHS[2], NULL_CHS[3];
    ChsSnoc([], a, false, true);
    ChsSnoc([a], b, false, true);
    ChsSnoc([a, b], c, false, true);
    ChsSnoc([a, b, c], d, false, true);
    assert [] + [a] == [a] && [a] + [b] == [a, b] && [a, b] + [c] == [a, b, c] && [a, b, c] + [d] == NULL_CHS;
  }

  // ----- Pairs

  /** A word as it is printed: in quotes and as short as can be, or a bare NULL. */
  ghost predicate PlainSpelling(sp: Spelling) {
    if sp.quoted then forall xs, isVal | ChsOk(xs, true, isVal) && WordOf(xs) == WordOf(sp.chs) :: |ChsText(sp.chs)| <= |ChsText(xs)|
    else sp.chs == NULL_CHS
  }

  /** A pair as it is printed: no white space but a space before all but the first. */
  ghost predicate PlainItem(x: Item, first: bool) {
    && x.lead == (if first then [] else [32]) && x.mid == [] && x.gap == [] && x.trail == []
    && x.key.quoted && PlainSpelling(x.key) && PlainSpelling(x.val)
  }

  function ValueSpelling(v: Value): Spelling {
    if v.Null? then Spelling(false, NULL_CHS) else Spelling(true, QuotedChs(v.s))
  }

  function ItemOf(p: Pair, first: bool): Item {
    Item(if first then [] else [32], Spelling(true, QuotedChs(p.key)), [], [], ValueSpelling(p.val), [])
  }

  lemma {:induction false} QuotedIsPlain(w: Bytes)
    ensures PlainSpelling(Spelling(true, QuotedChs(w)))
  {
    EscapedIsSpelling(w, true);
    forall xs, isVal | ChsOk(xs, true, isVal) && WordOf(xs) == w
      ensures |ChsText(QuotedChs(w))| <= |ChsText(xs)|
    {
      EscapedIsShortest(xs, isVal);
    }
  }

  lemma {:induction false} ItemIsPlain(p: Pair, first: bool)
    ensures PlainItem(ItemOf(p, first), first)
  {
    QuotedIsPlain(p.key);
    if p.val.Str? {
      QuotedIsPlain(p.val.s);
    }
  }

  lemma {:induction false} ItemWrites(p: Pair, first: bool)
    ensures PairOf(ItemOf(p, first)) == p
  {
    EscapedIsSpelling(p.key, false);
    NullSpelled();
    if p.val.Str? {
      EscapedIsSpelling(p.val.s, true);
    }
  }

  lemma {:induction false} ItemIsOk(p: Pair, first: bool)
    requires Short(p)
    ensures ItemOk(ItemOf(p, first))
  {
    EscapedIsSpelling(p.key, false);
    NullSpelled();
    if p.val.Str? {
      EscapedIsSpelling(p.val.s, true);
    }
  }

  lemma {:induction false} SpellingPrinted(v: Value)
    ensures SpellingText(ValueSpelling(v)) == ValueText(v)
  {
    NullSpelled();
    if v.Str? {
      EscapedIsSpelling(v.s, true);
    }
  }

  lemma {:induction false} ItemIsPrinted(p: Pair, first: bool)
    ensures ItemText(ItemOf(p, first)) == (if first then [] else [SPACE]) + PairText(p)
  {
    SpellingPrinted(Str(p.key));
    SpellingPrinted(p.val);
    ItemJoined(ItemOf(p, first), QuotedText(p.key), ValueText(p.val));
  }

  lemma {:induction false} ItemJoined(x: Item, k: Bytes, v: Bytes)
    requires SpellingText(x.key) == k && SpellingText(x.val) == v && x.mid == [] && x.gap == [] && x.trail == []
    ensures ItemText(x) == x.lead + (k + [EQUALS, GREATER] + v)
  {
    assert x.lead + k + [] + [EQUALS, GREATER] + [] + v + [] == x.lead + (k + [EQUALS, GREATER] + v);
  }

  // ----- The whole text

  function ItemsOf(ps: seq<Pair>): (xs: seq<Item>)
    ensures |xs| == |ps| && forall i | 0 <= i < |xs| :: xs[i] == ItemOf(ps[i], i == 0)
  {
    seq(|ps|, i requires 0 <= i < |ps| => ItemOf(ps[i], i == 0))
  }

  lemma {:induction false} ItemsSnoc(ps: seq<Pair>)
    requires ps != []
    ensures var n := |ps| - 1; ItemsOf(ps)[..n] == ItemsOf(ps[..n]) && ItemsOf(ps)[n] == ItemOf(ps[n], n == 0)
  {
    var n := |ps| - 1;
    var xs, ys := ItemsOf(ps)[..n], ItemsOf(ps[..n]);
    forall i | 0 <= i < n ensures xs[i] == ys[i] {
      assert ps[..n][i] == ps[i];
    }
    assert xs == ys;
  }

  lemma {:induction false} PairsAt(xs: seq<Item>, i: nat)
    requires i < |xs|
    ensures |PairsOf(xs)| == |xs| && PairsOf(xs)[i] == PairOf(xs[i])
  {
    var n := |xs| - 1;
    if n > 0 {
      PairsAt(xs[..n], if i < n then i else 0);
    }
  }

  lemma {:induction false} ItemsWrite(ps: seq<Pair>)
    ensures PairsOf(ItemsOf(ps)) == ps
  {
    var xs := ItemsOf(ps);
    forall i | 0 <= i < |ps| ensures |PairsOf(xs)| == |ps| && PairsOf(xs)[i] == ps[i] {
      PairsAt(xs, i);
      ItemWrites(ps[i], i == 0);
    }
    assert ps == [] ==> PairsOf(xs) == [];
  }

  lemma {:induction false} AllOk(xs: seq<Item>)
    requires forall i | 0 <= i < |xs| :: ItemOk(xs[i])
    ensures ItemsOk(xs)
  {
    if xs != [] {
      AllOk(xs[..|xs| - 1]);
    }
  }

  lemma {:induction false} ItemsAreOk(ps: seq<Pair>)
    requires AllShort(ps)
    ensures ItemsOk(ItemsOf(ps))
  {
    forall i | 0 <= i < |ps| ensures ItemOk(ItemsOf(ps)[i]) {
      ItemIsOk(ps[i], i == 0);
    }
    AllOk(ItemsOf(ps));
  }

  lemma {:induction false} ItemsArePrinted(ps: seq<Pair>)
    requires ps != []
    ensures ItemsText(ItemsOf(ps)) == Print(ps) + [COMMA]
  {
    var n := |ps| - 1;
    var front, p := ps[..n], ps[n];
    var a, b, x := ItemsText(ItemsOf(front)), PairText(p), ItemText(ItemOf(p, n == 0));
    assert ItemsText(ItemsOf(ps)) == a + (x + [COMMA]) by {
      ItemsSnoc(ps);
    }
    assert x == (if n == 0 then [] else [SPACE]) + b by {
      ItemIsPrinted(p, n == 0);
    }
    if n == 0 {
      assert a == [] && Print(ps) == b;
    } else {
      ItemsArePrinted(front);
      Joined(Print(front), b);
    }
  }

  lemma {:induction false} Joined(a: Bytes, b: Bytes)
    ensures a + [COMMA] + ([SPACE] + b + [COMMA]) == a + [COMMA, SPACE] + b + [COMMA]
    ensures a + [COMMA] + ([SPACE] + b) == a + [COMMA, SPACE] + b
  {
  }

  function PhraseOf(ps: seq<Pair>): Phrase {
    if ps == [] then Phrase([], None, [])
    else var n := |ps| - 1; Phrase(ItemsOf(ps[..n]), Some(ItemOf(ps[n], n == 0)), [])
  }

  lemma {:induction false} PhraseIsPrinted(ps: seq<Pair>)
    ensures PhraseText(PhraseOf(ps)) == Print(ps)
  {
    if ps != [] {
      var n := |ps| - 1;
      var front, b, x := ps[..n], PairText(ps[n]), ItemText(ItemOf(ps[n], n == 0));
      assert x == (if n == 0 then [] else [SPACE]) + b by {
        ItemIsPrinted(ps[n], n == 0);
      }
      if n == 0 {
        assert Print(ps) == b;
      } else {
        ItemsArePrinted(front);
        Joined(Print(front), b);
      }
    }
  }

  lemma {:induction false} PhraseWrites(ps: seq<Pair>)
    ensures PhrasePairs(PhraseOf(ps)) == ps
  {
    if ps != [] {
      var n := |ps| - 1;
      assert PairsOf(ItemsOf(ps[..n])) == ps[..n] by {
        ItemsWrite(ps[..n]);
      }
      assert PairOf(ItemOf(ps[n], n == 0)) == ps[n] by {
        ItemWrites(ps[n], n == 0);
      }
      assert ps == ps[..n] + [ps[n]];
    }
  }

  lemma {:induction false} PhraseIsOk(ps: seq<Pair>)
    requires AllShort(ps)
    ensures PhraseOk(PhraseOf(ps))
  {
    if ps != [] {
      var n := |ps| - 1;
      ItemsAreOk(ps[..n]);
      ItemIsOk(ps[n], n == 0);
    }
  }

  lemma {:induction false} PhraseIsPlain(ps: seq<Pair>)
    ensures var ph := PhraseOf(ps);
            && (forall i | 0 <= i < |ph.items| :: PlainItem(ph.items[i], i == 0))
            && (ph.last.Some? ==> PlainItem(ph.last.value, ph.items == []))
  {
    var ph := PhraseOf(ps);
    forall i | 0 <= i < |ph.items| ensures PlainItem(ph.items[i], i == 0) {
      ItemIsPlain(ps[i], i == 0);
    }
    if ps != [] {
      ItemIsPlain(ps[|ps| - 1], |ps| == 1);
    }
  }

  /**
    What is printed is one phrase of the syntax: pairs separated by a comma and a
    space, words in quotes with as few backslashes as can be, and nulls as NULL.
   */
  lemma {:induction false} PrintIsPlain(ps: seq<Pair>) returns (ph: Phrase)
    ensures PhraseText(ph) == Print(ps) && PhrasePairs(ph) == ps && (AllShort(ps) ==> PhraseOk(ph))
    ensures ph.blank == [] && (ph.last.None? ==> ph.items == [])
    ensures forall i | 0 <= i < |ph.items| :: PlainItem(ph.items[i], i == 0)
    ensures ph.last.Some? ==> PlainItem(ph.last.value, ph.items == [])
  {
    ph := PhraseOf(ps);
    PhraseIsPrinted(ps);
    PhraseWrites(ps);
    PhraseIsPlain(ps);
    if AllShort(ps) {
      PhraseIsOk(ps);
    }
  }
}
