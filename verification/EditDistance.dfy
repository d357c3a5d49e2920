/**
  The weighted edit distance: what an edit script is, what it costs, and the
  recurrence that the matrix of contrib/fuzzystrmatch/levenshtein.c tabulates.

  Column i stands for the first i characters of the source string, row j for
  the first j characters of the target string.
 */
module EditDistance {

  datatype Costs = Costs(ins: int, del: int, sub: int) {
    predicate NonNegative() {
      0 <= ins && 0 <= del && 0 <= sub
    }
  }

  function Min(a: int, b: int): int {
    if a <= b then a else b
  }

  // ----- Edit scripts

  /** One step of a left-to-right rewriting of the source into the target. */
  datatype Edit<T> = Insert(c: T) | Delete(c: T) | Align(from: T, to: T)

  function Source<T>(script: seq<Edit<T>>): seq<T> {
    if script == [] then []
    else
      var front := Source(script[..|script| - 1]);
      match script[|script| - 1]
      case Insert(_) => front
      case Delete(c) => front + [c]
      case Align(a, _) => front + [a]
  }

  function Target<T>(script: seq<Edit<T>>): seq<T> {
    if script == [] then []
    else
      var front := Target(script[..|script| - 1]);
      match script[|script| - 1]
      case Insert(c) => front + [c]
      case Delete(_) => front
      case Align(_, b) => front + [b]
  }

  function Charge<T(==)>(e: Edit<T>, k: Costs): int {
    match e
    case Insert(_) => k.ins
    case Delete(_) => k.del
    case Align(a, b) => if a == b then 0 else k.sub
  }

  function Price<T(==)>(script: seq<Edit<T>>, k: Costs): int {
    if script == [] then 0
    else Price(script[..|script| - 1], k) + Charge(script[|script| - 1], k)
  }

  /** r is the least price of any script that turns s into t. */
  ghost predicate IsLeastPrice<T(!new)>(s: seq<T>, t: seq<T>, k: Costs, r: int) {
    && (exists script: seq<Edit<T>> :: Source(script) == s && Target(script) == t && Price(script, k) == r)
    && (forall script: seq<Edit<T>> :: Source(script) == s && Target(script) == t ==> r <= Price(script, k))
  }

  // ----- The matrix

  function SubCost<T(==)>(a: T, b: T, k: Costs): int {
    if a == b then 0 else k.sub
  }

  /** The cell of the notional matrix in column i of row j. */
  function Cell<T(==)>(s: seq<T>, t: seq<T>, k: Costs, i: nat, j: nat): int
    requires i <= |s| && j <= |t|
    decreases i + j
  {
    if i == 0 && j == 0 then 0
    else if j == 0 then Cell(s, t, k, i - 1, 0) + k.del
    else if i == 0 then Cell(s, t, k, 0, j - 1) + k.ins
    else
      Min(Min(Cell(s, t, k, i, j - 1) + k.ins, Cell(s, t, k, i - 1, j) + k.del),
          Cell(s, t, k, i - 1, j - 1) + SubCost(s[i - 1], t[j - 1], k))
  }

  function Distance<T(==)>(s: seq<T>, t: seq<T>, k: Costs): int {
    Cell(s, t, k, |s|, |t|)
  }

  /** The first row of the matrix is all deletions, the first column all insertions. */
  lemma {:induction false} BorderCells<T>(s: seq<T>, t: seq<T>, k: Costs, n: nat)
    ensures n <= |s| ==> Cell(s, t, k, n, 0) == n * k.del
    ensures n <= |t| ==> Cell(s, t, k, 0, n) == n * k.ins
  {
    if n != 0 {
      BorderCells(s, t, k, n - 1);
      assert n * k.del == (n - 1) * k.del + k.del;
      assert n * k.ins == (n - 1) * k.ins + k.ins;
    }
  }

  /** No script is cheaper than the cell it reaches. */
  lemma {:induction false} ScriptsCostAtLeastTheCell<T>(s: seq<T>, t: seq<T>, k: Costs, i: nat, j: nat, script: seq<Edit<T>>)
    requires i <= |s| && j <= |t|
    requires Source(script) == s[..i] && Target(script) == t[..j]
    ensures Cell(s, t, k, i, j) <= Price(script, k)
    decreases |script|
  {
    if script != [] {
      var front, e := script[..|script| - 1], script[|script| - 1];
      match e
      case Insert(c) =>
        assert Target(front) == t[..j][..j - 1] == t[..j - 1];
        ScriptsCostAtLeastTheCell(s, t, k, i, j - 1, front);
        CellSteps(s, t, k, i, j);
      case Delete(c) =>
        assert Source(front) == s[..i][..i - 1] == s[..i - 1];
        ScriptsCostAtLeastTheCell(s, t, k, i - 1, j, front);
        CellSteps(s, t, k, i, j);
      case Align(a, b) =>
        assert Source(front) == s[..i][..i - 1] == s[..i - 1];
        assert Target(front) == t[..j][..j - 1] == t[..j - 1];
        assert a == s[..i][i - 1] && b == t[..j][j - 1];
        ScriptsCostAtLeastTheCell(s, t, k, i - 1, j - 1, front);
    }
  }

  /** One insertion or one deletion leads from a cell to the next. */
  lemma {:induction false} CellSteps<T>(s: seq<T>, t: seq<T>, k: Costs, i: nat, j: nat)
    requires i <= |s| && j <= |t|
    ensures 0 < i ==> Cell(s, t, k, i, j) <= Cell(s, t, k, i - 1, j) + k.del
    ensures 0 < j ==> Cell(s, t, k, i, j) <= Cell(s, t, k, i, j - 1) + k.ins
  {
  }

  lemma {:induction false} Snoc<T>(front: seq<Edit<T>>, e: Edit<T>, k: Costs)
    ensures Source(front + [e]) == Source(front) + (match e case Insert(_) => [] case Delete(c) => [c] case Align(a, _) => [a])
    ensures Target(front + [e]) == Target(front) + (match e case Insert(c) => [c] case Delete(_) => [] case Align(_, b) => [b])
    ensures Price(front + [e], k) == Price(front, k) + Charge(e, k)
  {
    assert (front + [e])[..|front + [e]| - 1] == front;
  }

  /** Every cell but the first owes its value to one of its three neighbours. */
  lemma {:induction false} CellHasPredecessor<T>(s: seq<T>, t: seq<T>, k: Costs, i: nat, j: nat)
    requires i <= |s| && j <= |t| && 0 < i + j
    ensures
      || (0 < j && Cell(s, t, k, i, j) == Cell(s, t, k, i, j - 1) + k.ins)
      || (0 < i && Cell(s, t, k, i, j) == Cell(s, t, k, i - 1, j) + k.del)
      || (0 < i && 0 < j && Cell(s, t, k, i, j) == Cell(s, t, k, i - 1, j - 1) + SubCost(s[i - 1], t[j - 1], k))
  {
  }

  /** The step that leads from the neighbour that gave a cell its value. */
  lemma {:induction false} PredecessorStep<T>(s: seq<T>, t: seq<T>, k: Costs, i: nat, j: nat) returns (i': nat, j': nat, e: Edit<T>)
    requires i <= |s| && j <= |t| && 0 < i + j
    ensures StepsTo(s, t, i', j', e, i, j)
    ensures Cell(s, t, k, i, j) == Cell(s, t, k, i', j') + Charge(e, k)
  {
    CellHasPredecessor(s, t, k, i, j);
    if 0 < j && Cell(s, t, k, i, j) == Cell(s, t, k, i, j - 1) + k.ins {
      return i, j - 1, Insert(t[j - 1]);
    }
    if 0 < i && Cell(s, t, k, i, j) == Cell(s, t, k, i - 1, j) + k.del {
      return i - 1, j, Delete(s[i - 1]);
    }
    return i - 1, j - 1, Align(s[i - 1], t[j - 1]);
  }

  /** Edit e leads from (i', j') to (i, j). */
  predicate StepsTo<T(==)>(s: seq<T>, t: seq<T>, i': nat, j': nat, e: Edit<T>, i: nat, j: nat)
    requires i <= |s| && j <= |t|
  {
    match e
    case Insert(c) => i' == i && j' + 1 == j && c == t[j']
    case Delete(c) => i' + 1 == i && j' == j && c == s[i']
    case Align(a, b) => i' + 1 == i && j' + 1 == j && a == s[i'] && b == t[j']
  }

  /** No step is worth more than it costs. */
  lemma {:induction false} StepBound<T>(s: seq<T>, t: seq<T>, k: Costs, i': nat, j': nat, e: Edit<T>, i: nat, j: nat)
    requires i <= |s| && j <= |t| && StepsTo(s, t, i', j', e, i, j)
    ensures Cell(s, t, k, i, j) <= Cell(s, t, k, i', j') + Charge(e, k)
  {
    CellSteps(s, t, k, i, j);
  }

  /** Some script costs exactly what the cell says. */
  lemma {:induction false} CellIsReached<T>(s: seq<T>, t: seq<T>, k: Costs, i: nat, j: nat) returns (script: seq<Edit<T>>)
    requires i <= |s| && j <= |t|
    ensures Source(script) == s[..i] && Target(script) == t[..j]
    ensures Price(script, k) == Cell(s, t, k, i, j)
    decreases i + j
  {
    if i == 0 && j == 0 {
      return [];
    }
    var i', j', e := PredecessorStep(s, t, k, i, j);
    var front := CellIsReached(s, t, k, i', j');
    Snoc(front, e, k);
    script := front + [e];
    assert s[..i] == if e.Insert? then s[..i'] else s[..i'] + [s[i']];
    assert t[..j] == if e.Delete? then t[..j'] else t[..j'] + [t[j']];
  }

  /** The last cell is the least price of a script, whatever the signs of the costs. */
  lemma {:induction false} DistanceIsLeastPrice<T(!new)>(s: seq<T>, t: seq<T>, k: Costs)
    ensures IsLeastPrice(s, t, k, Distance(s, t, k))
  {
    assert s[..|s|] == s && t[..|t|] == t;
    var script := CellIsReached(s, t, k, |s|, |t|);
    forall script: seq<Edit<T>> | Source(script) == s && Target(script) == t
      ensures Distance(s, t, k) <= Price(script, k)
    {
      ScriptsCostAtLeastTheCell(s, t, k, |s|, |t|, script);
    }
  }
}
