/**
  The parser of hstore text as written, contrib/hstore/hstore_io.c: get_val and
  parse_hstore, two nested state machines that share a read position, a word buffer
  and an array of pairs, both of which grow by doubling as long as there is memory
  for it.
 */
module HsParse {
  import opened Alloc
  import opened HsLayout
  import opened HsPairs
  import opened HsText

  /** A block that is reallocated to twice its size when it is full, up to a limit. */
  class Buffer<T> {
    var data: array<T>
    var used: nat
    /** The size it starts with, and the most elements an allocation holds. */
    const first: nat
    const limit: nat

    ghost predicate Valid()
      reads this, data
    {
      used <= data.Length && 0 < data.Length <= limit && Grown(first, data.Length)
    }

    ghost function Contents(): seq<T>
      requires Valid()
      reads this, data
    {
      data[..used]
    }

    constructor (size: nat, limit: nat, fill: T)
      requires 0 < size <= limit
      ensures Valid() && fresh(data) && Contents() == [] && data.Length == size && first == size && this.limit == limit
    {
      data := new T[size](_ => fill);
      used := 0;
      this.first, this.limit := size, limit;
      new;
      assert size == Doubled(size, 0);
    }

    /** Room for one more element and then spare ones, or an error if twice the size is past the limit. */
    method Reserve(spare: nat, fill: T) returns (ok: bool)
      requires Valid() && used + spare <= data.Length
      modifies this`data
      ensures Valid() && Contents() == old(Contents()) && (fresh(data) || data == old(data))
      ensures if ok then used + spare < data.Length else data == old(data) && used + spare >= data.Length && limit < 2 * data.Length
    {
      ok := true;
      if used + spare >= data.Length {
        if 2 * data.Length > limit {
          return false;
        }
        GrownOnce(first, data.Length);
        var old' := data;
        var n := used;
        data := new T[2 * data.Length](i requires 0 <= i reads old' => if i < n && i < old'.Length then old'[i] else fill);
        assert data[..used] == old'[..used];
      }
    }

    method Push(x: T)
      requires Valid() && used < data.Length
      modifies this`used, data
      ensures Valid() && Contents() == old(Contents()) + [x]
    {
      data[used] := x;
      used := used + 1;
    }
  }

  datatype Got = GotWord | NoWord | Error

  datatype Outer = WKey | WEq | WGt | WVal | WDel

  function ModeOf(st: Outer): Mode {
    match st
    case WKey => Word(Wait, false)
    case WEq => Eq
    case WGt => Gt
    case WVal => Word(Wait, true)
    case WDel => Del
  }

  /** Bytes that end with the only byte 0 in them. */
  ghost predicate Terminated(begin: Bytes) {
    begin != [] && begin[|begin| - 1] == 0 && NoNul(begin[..|begin| - 1])
  }

  /** The text in front of the terminator. */
  ghost function Text(begin: Bytes): Bytes
    requires begin != []
  {
    begin[..|begin| - 1]
  }

  lemma {:induction false} TextAt(begin: Bytes, p: nat)
    requires Terminated(begin) && p < |begin|
    ensures begin[p] == 0 <==> p == |Text(begin)|
    ensures p < |Text(begin)| ==> begin[p] == Text(begin)[p]
  {
    if p < |begin| - 1 {
      assert Text(begin)[p] in Text(begin);
    }
  }

  /** One character of the outcome. */
  lemma {:induction false} FinishStep(begin: Bytes, p: nat, s: State)
    requires Terminated(begin) && p < |begin|
    ensures if begin[p] == 0 then p == |Text(begin)| && Finish(Text(begin), p, s) == End(s)
            else p < |Text(begin)| && Finish(Text(begin), p, s) == Finish(Text(begin), p + 1, Step(s, begin[p]))
  {
    TextAt(begin, p);
  }

  /** An error, once certain, is the outcome. */
  lemma {:induction false} FailStep(begin: Bytes, p: nat, s: State)
    requires Terminated(begin) && p < |begin| && (begin[p] != 0 ==> Step(s, begin[p]).mode.Fail?) && (begin[p] == 0 ==> End(s) == None)
    ensures p <= |Text(begin)| && Finish(Text(begin), p, s) == None
  {
    FinishStep(begin, p, s);
    if begin[p] != 0 {
      FailIsFinal(Text(begin), p + 1, Step(s, begin[p]));
    }
  }

  /** How far the word buffer gets: no word is too long for hstoreCheckKeyLen or hstoreCheckValLen. */
  lemma {:induction false} WordBlock(len: nat)
    requires Grown(32, len) && len <= MAX_ALLOC
    ensures len <= WORD_LIMIT <= HSTORE_MAX_LEN && (MAX_ALLOC < 2 * len ==> len == WORD_LIMIT)
  {
    assert Doubled(32, 12) == 0x2_0000;
    assert Doubled(32, 24) == WORD_LIMIT;
    DoublingStops(32, 24, len, MAX_ALLOC);
  }

  /** How far the array of pairs gets. */
  lemma {:induction false} PairsBlock(len: nat)
    requires Grown(16, len) && len <= MAX_ALLOC / PAIR_SIZE
    ensures len <= PAIRS_LIMIT && (MAX_ALLOC / PAIR_SIZE < 2 * len ==> len == PAIRS_LIMIT)
  {
    assert Doubled(16, 10) == 0x4000;
    assert Doubled(16, 20) == PAIRS_LIMIT;
    DoublingStops(16, 20, len, MAX_ALLOC / PAIR_SIZE);
  }

  class HsParser {
    const begin: Bytes
    var ptr: nat
    var word: Buffer<Byte>
    var pairs: Buffer<Pair>

    constructor (begin: Bytes)
      requires Terminated(begin)
      ensures this.begin == begin && ptr == 0 && PairsValid() && pairs.Contents() == [] && fresh(pairs) && fresh(pairs.data)
    {
      this.begin := begin;
      ptr := 0;
      word := new Buffer<Byte>(32, MAX_ALLOC, 0);
      pairs := new Buffer<Pair>(16, MAX_ALLOC / PAIR_SIZE, Pair([], Null));
    }

    ghost predicate WordValid()
      reads this, word, word.data
    {
      word.Valid() && word.first == 32 && word.limit == MAX_ALLOC
    }

    ghost predicate PairsValid()
      reads this, pairs, pairs.data
    {
      pairs.Valid() && pairs.first == 16 && pairs.limit == MAX_ALLOC / PAIR_SIZE
    }

    /** The state of the automaton in the middle of a word. */
    ghost function Inside(st: WordMode, ignoreeq: bool, escaped: bool, key: Bytes, prs: seq<Pair>): State
      requires word.Valid()
      reads this, word, word.data
    {
      State(Word(st, ignoreeq), word.Contents(), escaped, key, prs)
    }

    method PutByte(c: Byte) returns (ok: bool)
      requires WordValid() && word.used < word.data.Length
      modifies word, word.data
      ensures WordValid() && word.used < word.data.Length
      ensures if ok then word.Contents() == old(word.Contents()) + [c] else |old(word.Contents())| + 1 >= WORD_LIMIT
      ensures fresh(word.data) || word.data == old(word.data)
    {
      ok := word.Reserve(1, 0);
      if ok {
        word.Push(c);
      } else {
        WordBlock(word.data.Length);
      }
    }

    /** In the middle of a word, with the outcome of the whole still to come from here. */
    ghost predicate Reading(p: nat, st: WordMode, ignoreeq: bool, escaped: bool, key: Bytes, prs: seq<Pair>, outcome: Option<seq<Pair>>)
      reads this, word, word.data
    {
      && Terminated(begin) && p < |begin| && WordValid() && word.used < word.data.Length
      && Admitted(Finish(Text(begin), p, Inside(st, ignoreeq, escaped, key, prs))) == outcome
      && (if st == Wait then word.used == 0 && 1 < word.data.Length && !escaped else 0 < p)
    }

    /** What get_val has found. */
    ghost predicate Ended(got: Got, ignoreeq: bool, escaped: bool, key: Bytes, prs: seq<Pair>, outcome: Option<seq<Pair>>)
      reads this, word, word.data
    {
      && WordValid() && word.used < word.data.Length && begin != []
      && match got
         case Error => outcome == None
         case NoWord => outcome == if ignoreeq then None else Admitted(Some(prs))
         case GotWord => ptr + 1 < |begin| && outcome == Admitted(Finish(Text(begin), ptr + 1, EndWord(Inside(In, ignoreeq, escaped, key, prs))))
    }

    /** GV_WAITVAL. */
    method OnWait(ignoreeq: bool, ghost key: Bytes, ghost prs: seq<Pair>, ghost outcome: Option<seq<Pair>>)
      returns (done: Option<Got>, st: WordMode, escaped: bool)
      requires Reading(ptr, Wait, ignoreeq, false, key, prs, outcome)
      modifies word, word.data
      ensures word.data == old(word.data)
      ensures if done.Some? then Ended(done.value, ignoreeq, escaped, key, prs, outcome)
              else Reading(ptr + 1, st, ignoreeq, escaped, key, prs, outcome)
    {
      var c := begin[ptr];
      FinishStep(begin, ptr, Inside(Wait, ignoreeq, false, key, prs));
      done, st, escaped := None, Wait, false;
      if c == QUOTE {
        st, escaped := Quoted, true;
      } else if c == 0 {
        done := Some(NoWord);
      } else if c == EQUALS && !ignoreeq {
        FailStep(begin, ptr, Inside(Wait, ignoreeq, false, key, prs));
        done := Some(Error);
      } else if c == BACKSLASH {
        st := Escape;
      } else if !IsSpace(c) {
        word.Push(c);
        st := In;
      }
    }

    /** GV_INVAL; a character that ends the word and belongs to what follows is given back. */
    method OnIn(ignoreeq: bool, escaped: bool, ghost key: Bytes, ghost prs: seq<Pair>, ghost outcome: Option<seq<Pair>>)
      returns (done: Option<Got>, st: WordMode)
      requires Reading(ptr, In, ignoreeq, escaped, key, prs, outcome)
      modifies this`ptr, word, word.data
      ensures (fresh(word.data) || word.data == old(word.data)) && old(ptr) - 1 <= ptr
      ensures if done.Some? then Ended(done.value, ignoreeq, escaped, key, prs, outcome)
              else ptr == old(ptr) && Reading(ptr + 1, st, ignoreeq, escaped, key, prs, outcome)
    {
      var c := begin[ptr];
      ghost var s := Inside(In, ignoreeq, escaped, key, prs);
      FinishStep(begin, ptr, s);
      done, st := None, In;
      if c == BACKSLASH {
        st := Escape;
      } else if (c == EQUALS && !ignoreeq) || (c == COMMA && ignoreeq) {
        FinishStep(begin, ptr, EndWord(s));
        EndThenStep(begin, ptr, s, c);
        ptr := ptr - 1;
        done := Some(GotWord);
      } else if IsSpace(c) {
        done := Some(GotWord);
      } else if c == 0 {
        FinishStep(begin, ptr, EndWord(s));
        ptr := ptr - 1;
        done := Some(GotWord);
      } else {
        done := PutOr(c, In, s, outcome);
      }
    }

    /** A character of the word; an error if there is no room for it. */
    method PutOr(c: Byte, ghost st: WordMode, ghost s: State, ghost outcome: Option<seq<Pair>>) returns (done: Option<Got>)
      requires Terminated(begin) && ptr < |begin| && begin[ptr] != 0 && WordValid() && word.used < word.data.Length
      requires s.mode.Word? && s.word == word.Contents() && Step(s, begin[ptr]) == Put(s, c, st)
      requires Admitted(Finish(Text(begin), ptr, s)) == outcome
      modifies word, word.data
      ensures WordValid() && word.used < word.data.Length && (fresh(word.data) || word.data == old(word.data))
      ensures match done
              case None => word.Contents() == s.word + [c] && ptr + 1 < |begin| && Admitted(Finish(Text(begin), ptr + 1, Put(s, c, st))) == outcome
              case Some(got) => got == Error && outcome == None
    {
      FinishStep(begin, ptr, s);
      var ok := PutByte(c);
      if !ok {
        ExcessIsRefused(Text(begin), ptr + 1, Put(s, c, st));
        return Some(Error);
      }
      return None;
    }

    /** GV_INESCVAL. */
    method OnQuoted(ignoreeq: bool, escaped: bool, ghost key: Bytes, ghost prs: seq<Pair>, ghost outcome: Option<seq<Pair>>)
      returns (done: Option<Got>, st: WordMode)
      requires Reading(ptr, Quoted, ignoreeq, escaped, key, prs, outcome)
      modifies word, word.data
      ensures fresh(word.data) || word.data == old(word.data)
      ensures if done.Some? then Ended(done.value, ignoreeq, escaped, key, prs, outcome)
              else Reading(ptr + 1, st, ignoreeq, escaped, key, prs, outcome)
    {
      var c := begin[ptr];
      ghost var s := Inside(Quoted, ignoreeq, escaped, key, prs);
      FinishStep(begin, ptr, s);
      done, st := None, Quoted;
      if c == BACKSLASH {
        st := QuotedEscape;
      } else if c == QUOTE {
        done := Some(GotWord);
      } else if c == 0 {
        done := Some(Error);
      } else {
        done := PutOr(c, Quoted, s, outcome);
      }
    }

    /** GV_WAITESCIN and GV_WAITESCESCIN. */
    method OnEscape(st: WordMode, ignoreeq: bool, escaped: bool, ghost key: Bytes, ghost prs: seq<Pair>, ghost outcome: Option<seq<Pair>>)
      returns (done: Option<Got>, st': WordMode)
      requires (st == Escape || st == QuotedEscape) && Reading(ptr, st, ignoreeq, escaped, key, prs, outcome)
      modifies word, word.data
      ensures fresh(word.data) || word.data == old(word.data)
      ensures if done.Some? then Ended(done.value, ignoreeq, escaped, key, prs, outcome)
              else Reading(ptr + 1, st', ignoreeq, escaped, key, prs, outcome)
    {
      var c := begin[ptr];
      ghost var s := Inside(st, ignoreeq, escaped, key, prs);
      FinishStep(begin, ptr, s);
      done, st' := None, if st == Escape then In else Quoted;
      if c == 0 {
        done := Some(Error);
      } else {
        done := PutOr(c, st', s, outcome);
      }
    }

    /** One character, in whatever state. */
    method OnChar(st: WordMode, ignoreeq: bool, escaped: bool, ghost key: Bytes, ghost prs: seq<Pair>, ghost outcome: Option<seq<Pair>>)
      returns (done: Option<Got>, st': WordMode, escaped': bool)
      requires Reading(ptr, st, ignoreeq, escaped, key, prs, outcome)
      modifies this`ptr, word, word.data
      ensures (fresh(word.data) || word.data == old(word.data)) && (if st == Wait then ptr == old(ptr) else old(ptr) - 1 <= ptr)
      ensures if done.Some? then Ended(done.value, ignoreeq, escaped', key, prs, outcome)
              else ptr == old(ptr) && Reading(ptr + 1, st', ignoreeq, escaped', key, prs, outcome)
    {
      escaped' := escaped;
      match st {
        case Wait => done, st', escaped' := OnWait(ignoreeq, key, prs, outcome);
        case In => done, st' := OnIn(ignoreeq, escaped, key, prs, outcome);
        case Quoted => done, st' := OnQuoted(ignoreeq, escaped, key, prs, outcome);
        case _ => done, st' := OnEscape(st, ignoreeq, escaped, key, prs, outcome);
      }
    }

    /** get_val. */
    method GetVal(ignoreeq: bool, ghost key: Bytes, ghost prs: seq<Pair>) returns (got: Got, escaped: bool)
      requires Terminated(begin) && ptr < |begin|
      modifies this`ptr, this`word
      ensures fresh(word) && fresh(word.data) && old(ptr) <= ptr
      ensures Ended(got, ignoreeq, escaped, key, prs, Admitted(Finish(Text(begin), old(ptr), State(Word(Wait, ignoreeq), [], false, key, prs))))
    {
      var st := Wait;
      word := new Buffer<Byte>(32, MAX_ALLOC, 0);
      escaped := false;
      var done: Option<Got> := None;
      ghost var outcome := Admitted(Finish(Text(begin), ptr, State(Word(Wait, ignoreeq), [], false, key, prs)));
      while true
        invariant fresh(word) && fresh(word.data) && Reading(ptr, st, ignoreeq, escaped, key, prs, outcome)
        invariant if st == Wait then old(ptr) <= ptr else old(ptr) < ptr
        decreases |begin| - ptr
      {
        done, st, escaped := OnChar(st, ignoreeq, escaped, key, prs, outcome);
        if done.Some? {
          return done.value, escaped;
        }
        ptr := ptr + 1;
      }
    }

    /** Whether the key of a pair has been read and its value has not. */
    predicate HalfPair(st: Outer) {
      st == WEq || st == WGt || st == WVal
    }

    /** The state of the automaton between words; a key read is already in the array. */
    ghost function Between(st: Outer): State
      requires pairs.Valid() && (HalfPair(st) ==> pairs.used < pairs.data.Length)
      reads this, pairs, pairs.data
    {
      State(ModeOf(st), [], false, if HalfPair(st) then pairs.data[pairs.used].key else [], pairs.Contents())
    }

    ghost predicate Parsing(p: nat, st: Outer, outcome: Option<seq<Pair>>)
      reads this, pairs, pairs.data
    {
      && Terminated(begin) && p < |begin| && PairsValid() && Admissible(pairs.Contents())
      && (HalfPair(st) ==> pairs.used < pairs.data.Length && |pairs.data[pairs.used].key| < WORD_LIMIT)
      && Admitted(Finish(Text(begin), p, Between(st))) == outcome
    }

    /** The parser is done: ok or in error, as the outcome is. */
    ghost predicate Parsed(ok: bool, outcome: Option<seq<Pair>>)
      reads this, pairs, pairs.data
    {
      PairsValid() && outcome == if ok then Some(pairs.Contents()) else None
    }

    /** WKEY. */
    method OnKey(ghost outcome: Option<seq<Pair>>) returns (done: Option<bool>)
      requires Parsing(ptr, WKey, outcome)
      modifies this`ptr, this`word, pairs, pairs.data
      ensures fresh(pairs.data) || pairs.data == old(pairs.data)
      ensures if done.Some? then Parsed(done.value, outcome) else Parsing(ptr + 1, WEq, outcome) && old(ptr) <= ptr
    {
      ghost var prs := pairs.Contents();
      var got, escaped := GetVal(false, [], prs);
      if got != GotWord {
        return Some(got == NoWord);
      }
      var room := StoreKey();
      if !room {
        ExcessIsRefused(Text(begin), ptr + 1, EndWord(Inside(In, false, escaped, [], prs)));
        return Some(false);
      }
      return None;
    }

    /** The key goes behind the pairs, if there is room for one more. */
    method StoreKey() returns (room: bool)
      requires WordValid() && word.used < word.data.Length && PairsValid()
      modifies pairs, pairs.data
      ensures PairsValid() && pairs.Contents() == old(pairs.Contents()) && (fresh(pairs.data) || pairs.data == old(pairs.data))
      ensures |word.Contents()| < WORD_LIMIT
      ensures if room then pairs.used < pairs.data.Length && pairs.data[pairs.used].key == word.Contents()
              else pairs.used == PAIRS_LIMIT
    {
      WordBlock(word.data.Length);
      room := pairs.Reserve(0, Pair([], Null));
      if room {
        ghost var prs := pairs.Contents();
        pairs.data[pairs.used] := Pair(word.data[..word.used], Null);
        assert pairs.Contents() == prs;
      } else {
        PairsBlock(pairs.data.Length);
      }
    }

    /** WVAL: a bare word null, in any case, is a null. */
    method OnVal(ghost outcome: Option<seq<Pair>>) returns (done: Option<bool>)
      requires Parsing(ptr, WVal, outcome)
      modifies this`ptr, this`word, pairs, pairs.data
      ensures fresh(pairs.data) || pairs.data == old(pairs.data)
      ensures if done.Some? then Parsed(done.value, outcome) else Parsing(ptr + 1, WDel, outcome) && old(ptr) <= ptr
    {
      var key := pairs.data[pairs.used].key;
      ghost var prs := pairs.Contents();
      var got, escaped := GetVal(true, key, prs);
      if got != GotWord {
        return Some(false);
      }
      StoreVal(key, escaped);
      return None;
    }

    /** The value, or a null, completes the pair. */
    method StoreVal(key: Bytes, escaped: bool)
      requires WordValid() && word.used < word.data.Length && PairsValid() && pairs.used < pairs.data.Length
      requires Admissible(pairs.Contents()) && |key| < WORD_LIMIT
      modifies pairs, pairs.data, word.data
      ensures PairsValid() && pairs.data == old(pairs.data) && Admissible(pairs.Contents())
      ensures pairs.Contents() == old(pairs.Contents()) + [Pair(key, WordValue(old(word.Contents()), escaped))]
      ensures |old(word.Contents())| <= HSTORE_MAX_LEN
    {
      WordBlock(word.data.Length);
      PairsBlock(pairs.data.Length);
      var val := word.data[..word.used];
      var isNull := false;
      if word.used == 4 && !escaped {
        word.data[4] := 0;
        isNull := IsNullWord(word.data[..4]);
      }
      pairs.Push(Pair(key, if isNull then Null else Str(val)));
    }

    /** WEQ, WGT and WDEL. */
    method OnBetween(st: Outer, ghost outcome: Option<seq<Pair>>) returns (done: Option<bool>, st': Outer)
      requires (st == WEq || st == WGt || st == WDel) && Parsing(ptr, st, outcome)
      ensures if done.Some? then Parsed(done.value, outcome) else Parsing(ptr + 1, st', outcome)
    {
      var c := begin[ptr];
      ghost var s := Between(st);
      FinishStep(begin, ptr, s);
      if c == 0 {
        return Some(st == WDel), st;
      } else if st == WEq && c == EQUALS {
        return None, WGt;
      } else if st == WGt && c == GREATER {
        return None, WVal;
      } else if st == WDel && c == COMMA {
        return None, WKey;
      } else if st != WGt && IsSpace(c) {
        return None, st;
      } else {
        FailStep(begin, ptr, s);
        return Some(false), st;
      }
    }

    method OnState(st: Outer, ghost outcome: Option<seq<Pair>>) returns (done: Option<bool>, st': Outer)
      requires Parsing(ptr, st, outcome)
      modifies this`ptr, this`word, pairs, pairs.data
      ensures fresh(pairs.data) || pairs.data == old(pairs.data)
      ensures if done.Some? then Parsed(done.value, outcome) else Parsing(ptr + 1, st', outcome) && old(ptr) <= ptr
    {
      match st {
        case WKey =>
          done := OnKey(outcome);
          st' := WEq;
        case WVal =>
          done := OnVal(outcome);
          st' := WDel;
        case _ =>
          done, st' := OnBetween(st, outcome);
      }
    }

    /** parse_hstore: the pairs of the text, in their order, or an error, of syntax or because there is no room. */
    method ParseHstore() returns (ok: bool)
      requires Terminated(begin) && PairsValid() && pairs.used == 0
      modifies this`ptr, this`word, pairs, pairs.data
      ensures pairs.Valid() && ReadText(Text(begin)) == if ok then Some(pairs.Contents()) else None
    {
      var st := WKey;
      ptr := 0;
      var done: Option<bool> := None;
      ghost var outcome := ReadText(Text(begin));
      while true
        invariant Parsing(ptr, st, outcome) && (fresh(pairs.data) || pairs.data == old(pairs.data))
        decreases |begin| - ptr
      {
        done, st := OnState(st, outcome);
        if done.Some? {
          return done.value;
        }
        ptr := ptr + 1;
      }
    }
  }

  /** Reading the character that ends a bare word is ending the word and reading the character again. */
  lemma {:induction false} EndThenStep(begin: Bytes, p: nat, s: State, c: Byte)
    requires Terminated(begin) && p < |begin| && begin[p] == c && s.mode.Word? && s.mode.st == In
    requires c == if s.mode.isVal then COMMA else EQUALS
    ensures p < |Text(begin)| && Finish(Text(begin), p, s) == Finish(Text(begin), p, EndWord(s))
  {
    FinishStep(begin, p, s);
    FinishStep(begin, p, EndWord(s));
  }
}
