/**
  From an arbitrary list of pairs to a packed value, contrib/hstore/hstore_io.c
  and hstore_op.c: sorting, dropping repeated keys, and writing the result.

  The library's qsort is a parameter: some function that sorts by key. Nothing is
  known of the order it leaves equal keys in.
 */
module HsPairs {
  import opened Alloc
  import opened HsLayout
  import opened HsBuild
  import opened HsOrder

  datatype Option<T> = None | Some(value: T)

  ghost predicate WeaklySorted(ps: seq<Pair>) {
    forall i, j | 0 <= i < j < |ps| :: KeyCmp(ps[i].key, ps[j].key) <= 0
  }

  ghost predicate IsSorting(s: seq<Pair>, ps: seq<Pair>) {
    WeaklySorted(s) && multiset(s) == multiset(ps)
  }

  ghost predicate Sorts(sort: seq<Pair> -> seq<Pair>) {
    forall ps: seq<Pair> :: IsSorting(sort(ps), ps)
  }

  /** Of neighbours with the same key, the first. */
  function FirstOfRuns(ps: seq<Pair>): (r: seq<Pair>)
    ensures ps != [] ==> r != []
    ensures |r| <= |ps|
  {
    if ps == [] then []
    else
      var r, p := FirstOfRuns(ps[..|ps| - 1]), ps[|ps| - 1];
      if r != [] && r[|r| - 1].key == p.key then r else r + [p]
  }

  /** On a sorted list the keys kept are in strictly increasing order. */
  lemma {:induction false} RunsAreSorted(ps: seq<Pair>)
    requires WeaklySorted(ps)
    ensures Sorted(FirstOfRuns(ps))
    ensures ps != [] ==> FirstOfRuns(ps)[|FirstOfRuns(ps)| - 1].key == ps[|ps| - 1].key
  {
    if |ps| > 1 {
      var front, p := ps[..|ps| - 1], ps[|ps| - 1];
      RunsAreSorted(front);
      assert KeyCmp(front[|front| - 1].key, p.key) <= 0;
      RunStep(FirstOfRuns(front), p);
    }
  }

  lemma {:induction false} RunStep(r: seq<Pair>, p: Pair)
    requires Sorted(r) && r != [] && KeyCmp(r[|r| - 1].key, p.key) <= 0
    ensures r[|r| - 1].key != p.key ==> Sorted(r + [p])
  {
    if r[|r| - 1].key != p.key {
      KeyCmpZero(r[|r| - 1].key, p.key);
      DropLastUnder(r, p.key);
      SnocSorted(r, p);
    }
  }

  /** Every pair kept is one of the list, and no key is lost. */
  lemma {:induction false} RunsCover(ps: seq<Pair>)
    ensures forall p | p in FirstOfRuns(ps) :: p in ps
    ensures forall p | p in ps :: p.key in ToMap(FirstOfRuns(ps))
  {
    if ps != [] {
      var front, p := ps[..|ps| - 1], ps[|ps| - 1];
      var r := FirstOfRuns(front);
      Snoc(ps, |ps| - 1);
      RunsCover(front);
      if r != [] && r[|r| - 1].key == p.key {
        MapKeys(r, p.key);
      } else {
        assert (r + [p])[..|r|] == r;
      }
    }
  }

  lemma {:induction false} LastRun(ps: seq<Pair>)
    requires ps != []
    ensures FirstOfRuns(ps)[|FirstOfRuns(ps)| - 1].key == ps[|ps| - 1].key
  {
  }

  predicate StartsRun(ps: seq<Pair>, i: nat) {
    i < |ps| && (i == 0 || ps[i - 1].key != ps[i].key)
  }

  lemma {:induction false} RunsStep(ps: seq<Pair>)
    requires ps != []
    ensures var n := |ps| - 1;
            && FirstOfRuns(ps) == FirstOfRuns(ps[..n]) + (if StartsRun(ps, n) then [ps[n]] else [])
            && forall i: nat | i < n :: StartsRun(ps[..n], i) <==> StartsRun(ps, i)
  {
    var n := |ps| - 1;
    if n > 0 {
      LastRun(ps[..n]);
    }
  }

  /** The pairs kept are those that start a run of equal keys. */
  lemma {:induction false} RunsKeepFirst(ps: seq<Pair>, p: Pair)
    ensures p in FirstOfRuns(ps) <==> exists i: nat | StartsRun(ps, i) :: ps[i] == p
  {
    if ps != [] {
      var n := |ps| - 1;
      RunsStep(ps);
      RunsKeepFirst(ps[..n], p);
      if p in FirstOfRuns(ps[..n]) {
        var i: nat :| StartsRun(ps[..n], i) && ps[..n][i] == p;
        assert StartsRun(ps, i);
      }
    }
  }

  /** A sorted list is under every key its last key is under. */
  lemma {:induction false} DropLastUnder(r: seq<Pair>, k: Bytes)
    requires Sorted(r) && r != [] && KeyLess(r[|r| - 1].key, k)
    ensures Under(r, k)
  {
    forall i | 0 <= i < |r| ensures KeyLess(r[i].key, k) {
      if i < |r| - 1 {
        KeyLessTransitive(r[i].key, r[|r| - 1].key, k);
      }
    }
  }

  /** The bytes a pair takes, as the size of the buffer is counted. */
  function PairLen(p: Pair): nat {
    |p.key| + if p.val.Null? then 0 else |p.val.s|
  }

  /** hstoreUniquePairs, after the call of qsort. */
  method UniquePairs(a: array<Pair>) returns (n: nat, buflen: nat)
    modifies a
    ensures n <= a.Length && a[..n] == FirstOfRuns(old(a[..])) && buflen == |StrOf(a[..n])|
  {
    buflen := 0;
    if a.Length < 2 {
      if a.Length == 1 {
        buflen := PairLen(a[0]);
        assert a[..] == [a[0]];
        assert a[..][..0] == [];
      } else {
        assert a[..] == [];
      }
      return a.Length, buflen;
    }
    n, buflen := DropRepeats(a);
  }

  method DropRepeats(a: array<Pair>) returns (n: nat, buflen: nat)
    requires 2 <= a.Length
    modifies a
    ensures n <= a.Length && a[..n] == FirstOfRuns(old(a[..])) && buflen == |StrOf(a[..n])|
  {
    ghost var was := a[..];
    var ptr, res: nat := 1, 0;
    buflen := 0;
    OneIsKept(was);
    while ptr < a.Length
      invariant ptr <= a.Length && Kept(a[..], was, ptr, res, buflen)
    {
      res, buflen := KeepOrDrop(a, ptr, res, buflen, was);
      ptr := ptr + 1;
    }
    LastIsCounted(a[..], was, res, buflen);
    return res + 1, buflen + PairLen(a[res]);
  }

  /** Of the first ptr pairs those kept are the first res + 1, and the bytes of all but the last are counted. */
  ghost predicate Kept(s: seq<Pair>, was: seq<Pair>, ptr: nat, res: nat, buflen: nat) {
    && res < ptr <= |s| == |was| && s[..res + 1] == FirstOfRuns(was[..ptr]) && s[ptr..] == was[ptr..]
    && buflen == |StrOf(s[..res])|
  }

  lemma {:induction false} OneIsKept(was: seq<Pair>)
    requires was != []
    ensures Kept(was, was, 1, 0, 0)
  {
    assert was[..1][..0] == [] && was[..0] == [];
  }

  lemma {:induction false} LastIsCounted(s: seq<Pair>, was: seq<Pair>, res: nat, buflen: nat)
    requires Kept(s, was, |was|, res, buflen)
    ensures s[..res + 1] == FirstOfRuns(was) && buflen + PairLen(s[res]) == |StrOf(s[..res + 1])|
  {
    assert was[..|was|] == was;
    StrSnoc(s[..res + 1], s[..res], s[res]);
  }

  /** The pair at ptr is kept unless its key is that of the last one kept, whose bytes are counted then. */
  method KeepOrDrop(a: array<Pair>, ptr: nat, res: nat, buflen: nat, ghost was: seq<Pair>) returns (res': nat, buflen': nat)
    requires ptr < a.Length && Kept(a[..], was, ptr, res, buflen)
    modifies a
    ensures Kept(a[..], was, ptr + 1, res', buflen')
  {
    ghost var kept := a[..res + 1];
    assert a[ptr] == was[ptr] && a[res] == kept[res] && a[ptr + 1..] == was[ptr + 1..] by {
      assert a[ptr..][0] == was[ptr..][0] && a[ptr + 1..] == a[ptr..][1..];
    }
    assert FirstOfRuns(was[..ptr + 1]) == if a[ptr].key != a[res].key then kept + [a[ptr]] else kept by {
      Snoc(was, ptr);
    }
    res', buflen' := res, buflen;
    if a[ptr].key != a[res].key {
      StrSnoc(kept, a[..res], a[res]);
      buflen' := buflen + PairLen(a[res]);
      res' := res + 1;
      Shift(a, res', ptr);
    }
  }

  lemma {:induction false} StrSnoc(all: seq<Pair>, front: seq<Pair>, p: Pair)
    requires all == front + [p]
    ensures |StrOf(all)| == |StrOf(front)| + PairLen(p)
  {
    assert all[..|all| - 1] == front;
  }

  method Shift(a: array<Pair>, to: nat, from: nat)
    requires to <= from < a.Length
    modifies a
    ensures a[..to] == old(a[..to]) && a[..to + 1] == old(a[..to]) + [old(a[from])] && a[from + 1..] == old(a[from + 1..])
  {
    if to != from {
      a[to] := a[from];
    }
  }

  /** The keys of a text array, nulls left out. */
  function NonNull(keys: seq<Value>): seq<Pair> {
    if keys == [] then []
    else
      var front, k := NonNull(keys[..|keys| - 1]), keys[|keys| - 1];
      if k.Null? then front else front + [Pair(k.s, Null)]
  }

  lemma {:induction false} NonNullHolds(keys: seq<Value>, p: Pair)
    ensures p in NonNull(keys) <==> p.val.Null? && Str(p.key) in keys
  {
    if keys != [] {
      var front, k := keys[..|keys| - 1], keys[|keys| - 1];
      assert keys == front + [k];
      NonNullHolds(front, p);
    }
  }

  /** sizeof(Pairs), for pointers of 64 bits. */
  const PAIR_SIZE: nat := 40

  /** The elements of the array fit an allocation of pairs. */
  predicate FewKeys(keys: seq<Value>) {
    |keys| <= MAX_ALLOC / PAIR_SIZE
  }

  /** hstoreArrayToPairs: the non-null elements of an array, each once, in the order of keys; an error if there are too many elements. */
  method ArrayToPairs(keys: seq<Value>, sort: seq<Pair> -> seq<Pair>) returns (r: Option<seq<Pair>>)
    requires Sorts(sort)
    ensures r.Some? <==> FewKeys(keys)
    ensures r.Some? ==> Sorted(r.value) && forall k :: k in ToMap(r.value) <==> Str(k) in keys
  {
    if |keys| == 0 {
      return Some([]);
    }
    if |keys| > MAX_ALLOC / PAIR_SIZE {
      return None;
    }
    var pairs := [];
    for i := 0 to |keys|
      invariant pairs == NonNull(keys[..i])
    {
      assert keys[..i + 1][..i] == keys[..i];
      if keys[i].Str? {
        pairs := pairs + [Pair(keys[i].s, Null)];
      }
    }
    assert keys[..|keys|] == keys;
    var s := sort(pairs);
    assert IsSorting(s, pairs);
    var a := new Pair[|s|](i requires 0 <= i < |s| => s[i]);
    assert a[..] == s;
    var n, _ := UniquePairs(a);
    RunsAreSorted(s);
    RunsCover(s);
    SameKeys(keys, s, a[..n]);
    return Some(a[..n]);
  }

  lemma {:induction false} SameKeys(keys: seq<Value>, s: seq<Pair>, kp: seq<Pair>)
    requires multiset(s) == multiset(NonNull(keys))
    requires forall p | p in kp :: p in s
    requires forall p | p in s :: p.key in ToMap(kp)
    ensures forall k :: k in ToMap(kp) <==> Str(k) in keys
  {
    var ps := NonNull(keys);
    forall k ensures k in ToMap(kp) <==> Str(k) in keys {
      MapKeys(kp, k);
      if k in ToMap(kp) {
        var i :| 0 <= i < |kp| && kp[i].key == k;
        NonNullHolds(keys, kp[i]);
        assert kp[i] in s && kp[i] in multiset(s);
        assert kp[i] in ps;
      }
      if Str(k) in keys {
        var p := Pair(k, Null);
        NonNullHolds(keys, p);
        assert p in multiset(ps);
        assert p in s;
      }
    }
  }

  /** hstorePairs: the packed value, or an error when it is more than can be allocated. */
  method Build(pairs: seq<Pair>, buflen: nat) returns (r: Option<HStore>)
    requires buflen == |StrOf(pairs)|
    ensures r == if Fits(pairs) then Some(Pack(pairs)) else None
  {
    if DataSize(|pairs|, buflen) > MAX_ALLOC {
      return None;
    }
    var b := new Builder(|pairs|, buflen);
    for i := 0 to |pairs|
      invariant b.Valid() && b.pairs == pairs[..i] && b.planned == |pairs| && b.mem.Length == 2 * |pairs| + buflen && fresh(b.mem)
    {
      StrStep(pairs, i);
      Snoc(pairs, i);
      b.AddItem(pairs[i]);
    }
    assert pairs[..|pairs|] == pairs;
    var hs := b.Finalize();
    return Some(hs);
  }
}
