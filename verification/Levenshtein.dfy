/**
  contrib/fuzzystrmatch/levenshtein.c, both compilations of it: the plain
  two-row table, and the one that stops at a bound and keeps only a band of
  columns around the diagonal.

  A cell is live when its value plus the residual distance (the insertions or
  deletions still needed to make the remaining lengths equal) is within the
  bound. The band always holds every live cell, and every number the band
  computes is exact on a live cell and provably over the bound on a dead one.
  This rests on costs that are not negative; at the end it is shown for exactly
  which other costs the bounded form is right all the same.
 */
module Levenshtein {
  import opened EditDistance

  const MAX_LEVENSHTEIN_STRLEN: nat := 255

  datatype Outcome = Answer(d: int) | TooLong

  /** The bound in force; it is dropped when it cannot bite. */
  datatype Bound = Unbounded | AtMost(d: int)

  // ----- The residual distance

  function Times(n: nat, c: int): int {
    if n == 0 then 0 else Times(n - 1, c) + c
  }

  lemma {:induction false} TimesIsProduct(n: nat, c: int)
    ensures Times(n, c) == n * c
  {
    if n != 0 {
      TimesIsProduct(n - 1, c);
      assert n * c == (n - 1) * c + c;
    }
  }

  lemma {:induction false} TimesNonNegative(n: nat, c: int)
    requires 0 <= c
    ensures 0 <= Times(n, c)
  {
    if n != 0 {
      TimesNonNegative(n - 1, c);
    }
  }

  /** The least cost of evening out the lengths of what is left of both strings. */
  function Residual<T>(s: seq<T>, t: seq<T>, k: Costs, i: nat, j: nat): int
    requires i <= |s| && j <= |t|
  {
    var inserts := (|t| - j) - (|s| - i);
    if inserts > 0 then Times(inserts, k.ins) else Times(-inserts, k.del)
  }

  /** The residual distance is a consistent estimate: no step gains more than it costs. */
  lemma {:induction false} ResidualSteps<T>(s: seq<T>, t: seq<T>, k: Costs, i: nat, j: nat)
    requires 0 <= k.ins + k.del && i <= |s| && j <= |t|
    ensures 0 < j ==> Residual(s, t, k, i, j - 1) <= Residual(s, t, k, i, j) + k.ins
    ensures 0 < i ==> Residual(s, t, k, i - 1, j) <= Residual(s, t, k, i, j) + k.del
    ensures 0 < i && 0 < j ==> Residual(s, t, k, i - 1, j - 1) == Residual(s, t, k, i, j)
  {
    var inserts := (|t| - j) - (|s| - i);
    assert inserts == 0 ==> Times(1, k.ins) == k.ins && Times(1, k.del) == k.del;
    assert inserts < 0 ==> Times(-inserts, k.del) == Times(-inserts - 1, k.del) + k.del;
    assert inserts > 0 ==> Times(inserts, k.ins) == Times(inserts - 1, k.ins) + k.ins;
  }

  lemma {:induction false} ResidualNonNegative<T>(s: seq<T>, t: seq<T>, k: Costs, i: nat, j: nat)
    requires 0 <= k.ins && 0 <= k.del && i <= |s| && j <= |t|
    ensures 0 <= Residual(s, t, k, i, j)
  {
    var inserts := (|t| - j) - (|s| - i);
    TimesNonNegative(if inserts > 0 then inserts else -inserts, if inserts > 0 then k.ins else k.del);
  }

  // ----- Weighted Lipschitz and diagonal facts about the matrix

  /** One target character less costs at most a deletion more. */
  lemma {:induction false} OneTargetLess<T>(s: seq<T>, t: seq<T>, k: Costs, i: nat, j: nat)
    requires k.NonNegative() && i <= |s| && j < |t|
    ensures Cell(s, t, k, i, j) <= Cell(s, t, k, i, j + 1) + k.del
    decreases i
  {
    CellSteps(s, t, k, i, j);
    if 0 < i {
      OneTargetLess(s, t, k, i - 1, j);
    }
  }

  /** One source character less costs at most an insertion more. */
  lemma {:induction false} OneSourceLess<T>(s: seq<T>, t: seq<T>, k: Costs, i: nat, j: nat)
    requires k.NonNegative() && i < |s| && j <= |t|
    ensures Cell(s, t, k, i, j) <= Cell(s, t, k, i + 1, j) + k.ins
    decreases j
  {
    CellSteps(s, t, k, i, j);
    if 0 < j {
      OneSourceLess(s, t, k, i, j - 1);
    }
  }

  /** Values never fall along a diagonal. */
  lemma {:induction false} Diagonal<T>(s: seq<T>, t: seq<T>, k: Costs, i: nat, j: nat)
    requires k.NonNegative() && i < |s| && j < |t|
    ensures Cell(s, t, k, i, j) <= Cell(s, t, k, i + 1, j + 1)
  {
    OneTargetLess(s, t, k, i, j);
    OneSourceLess(s, t, k, i, j);
  }

  /** Lower charges, lower cells. */
  lemma {:induction false} CellIsMonotone<T>(s: seq<T>, t: seq<T>, k: Costs, k': Costs, i: nat, j: nat)
    requires k'.ins <= k.ins && k'.del <= k.del && k'.sub <= k.sub && i <= |s| && j <= |t|
    ensures Cell(s, t, k', i, j) <= Cell(s, t, k, i, j)
    decreases i + j
  {
    if 0 < i + j {
      var i', j', e := PredecessorStep(s, t, k, i, j);
      CellIsMonotone(s, t, k, k', i', j');
      StepBound(s, t, k', i', j', e, i, j);
    }
  }

  /** A substitution dearer than a deletion and an insertion is never needed. */
  lemma {:induction false} CheaperSubstitution<T>(s: seq<T>, t: seq<T>, k: Costs, k': Costs, i: nat, j: nat)
    requires k' == k.(sub := k.ins + k.del) && k'.sub < k.sub && i <= |s| && j <= |t|
    ensures Cell(s, t, k, i, j) <= Cell(s, t, k', i, j)
    decreases i + j
  {
    if 0 < i + j {
      var i', j', e := PredecessorStep(s, t, k', i, j);
      CheaperSubstitution(s, t, k, k', i', j');
      StepBound(s, t, k, i', j', e, i, j);
      if e.Align? && e.from != e.to {
        StepBound(s, t, k, i', j', Insert(e.to), i', j);
        StepBound(s, t, k, i', j, Delete(e.from), i, j);
      }
    }
  }

  // ----- Live cells

  predicate Live<T(==)>(s: seq<T>, t: seq<T>, k: Costs, b: Bound, i: nat, j: nat)
    requires i <= |s| && j <= |t|
  {
    b.AtMost? ==> Cell(s, t, k, i, j) + Residual(s, t, k, i, j) <= b.d
  }

  /** v may stand for the cell: exact if the cell is live, over the bound if not. */
  predicate Approx<T(==)>(s: seq<T>, t: seq<T>, k: Costs, b: Bound, i: nat, j: nat, v: int)
    requires i <= |s| && j <= |t|
  {
    if Live(s, t, k, b, i, j) then v == Cell(s, t, k, i, j)
    else v + Residual(s, t, k, i, j) > b.d
  }

  predicate Sound(k: Costs, b: Bound) {
    b.AtMost? ==> k.NonNegative()
  }

  /** A live cell got its value from a live neighbour. */
  lemma {:induction false} LivePredecessor<T>(s: seq<T>, t: seq<T>, k: Costs, b: Bound, i: nat, j: nat)
    requires Sound(k, b) && i <= |s| && j <= |t| && 0 < i + j
    requires Live(s, t, k, b, i, j)
    ensures
      || (0 < j && Live(s, t, k, b, i, j - 1))
      || (0 < i && Live(s, t, k, b, i - 1, j))
      || (0 < i && 0 < j && Live(s, t, k, b, i - 1, j - 1))
  {
    if b.AtMost? {
      CellHasPredecessor(s, t, k, i, j);
      ResidualSteps(s, t, k, i, j);
    }
  }

  /** No cell of row j in columns from up to to is live. */
  ghost predicate Dead<T>(s: seq<T>, t: seq<T>, k: Costs, b: Bound, j: nat, from: nat, to: nat)
    requires to <= |s| + 1 && j <= |t|
  {
    forall i | from <= i < to :: !Live(s, t, k, b, i, j)
  }

  /** Nothing to the left of the band comes to life in the next row. */
  lemma {:induction false} DeadOnTheLeft<T>(s: seq<T>, t: seq<T>, k: Costs, b: Bound, lo: nat, j: nat)
    requires Sound(k, b) && lo <= |s| + 1 && 0 < j <= |t|
    requires Dead(s, t, k, b, j - 1, 0, lo)
    ensures Dead(s, t, k, b, j, 0, lo)
    decreases lo
  {
    if 0 < lo {
      DeadOnTheLeft(s, t, k, b, lo - 1, j);
      if Live(s, t, k, b, lo - 1, j) {
        LivePredecessor(s, t, k, b, lo - 1, j);
        assert false;
      }
    }
  }

  /** Only one more column can come to life on the right. */
  lemma {:induction false} DeadOnTheRight<T>(s: seq<T>, t: seq<T>, k: Costs, b: Bound, hi: nat, j: nat)
    requires Sound(k, b) && hi <= |s| && 0 < j <= |t|
    requires Dead(s, t, k, b, j - 1, hi, |s| + 1)
    ensures Dead(s, t, k, b, j, hi + 1, |s| + 1)
  {
    forall i | hi + 1 <= i < |s| + 1 ensures !Live(s, t, k, b, i, j) {
      assert !Live(s, t, k, b, i - 1, j - 1);
      Diagonal(s, t, k, i - 1, j - 1);
      ResidualSteps(s, t, k, i, j);
    }
  }

  /** One cell of a row, computed from three acceptable numbers, is acceptable. */
  lemma {:induction false} ApproxStep<T>(s: seq<T>, t: seq<T>, k: Costs, b: Bound, i: nat, j: nat, up: int, left: int, diag: int)
    requires Sound(k, b) && 0 < i <= |s| && 0 < j <= |t|
    requires Approx(s, t, k, b, i, j - 1, up)
    requires Approx(s, t, k, b, i - 1, j, left)
    requires Approx(s, t, k, b, i - 1, j - 1, diag)
    ensures Approx(s, t, k, b, i, j, Min(Min(up + k.ins, left + k.del), diag + SubCost(s[i - 1], t[j - 1], k)))
  {
    if b.AtMost? {
      ResidualSteps(s, t, k, i, j);
    }
  }

  /** The same for the first column. */
  lemma {:induction false} ApproxBorder<T>(s: seq<T>, t: seq<T>, k: Costs, b: Bound, j: nat)
    requires j <= |t|
    ensures Approx(s, t, k, b, 0, j, j * k.ins)
  {
    BorderCells(s, t, k, j);
  }

  // ----- What a whole row says about the answer

  /** In the last row, a live cell makes the answer live. */
  lemma {:induction false} LiveInLastRow<T>(s: seq<T>, t: seq<T>, k: Costs, b: Bound, i: nat)
    requires Sound(k, b) && i <= |s|
    requires Live(s, t, k, b, i, |t|)
    ensures Live(s, t, k, b, |s|, |t|)
    decreases |s| - i
  {
    if i < |s| && b.AtMost? {
      CellSteps(s, t, k, i + 1, |t|);
      LiveInLastRow(s, t, k, b, i + 1);
    }
  }

  /** A row without a live cell has none below it. */
  lemma {:induction false} DeadRow<T>(s: seq<T>, t: seq<T>, k: Costs, b: Bound, j: nat)
    requires Sound(k, b) && j <= |t|
    requires Dead(s, t, k, b, j, 0, |s| + 1)
    ensures !Live(s, t, k, b, |s|, |t|)
    decreases |t| - j
  {
    if j < |t| {
      DeadOnTheLeft(s, t, k, b, |s| + 1, j + 1);
      DeadRow(s, t, k, b, j + 1);
    }
  }

  // ----- The two theoretical limits

  /** No cell is cheaper than evening out the lengths. */
  lemma {:induction false} TheoreticalMinimum<T>(s: seq<T>, t: seq<T>, k: Costs, i: nat, j: nat)
    requires 0 <= k.ins + k.del && 0 <= k.sub && i <= |s| && j <= |t|
    ensures Residual(s, t, k, 0, 0) <= Cell(s, t, k, i, j) + Residual(s, t, k, i, j)
    decreases i + j
  {
    if 0 < i + j {
      var i', j', e := PredecessorStep(s, t, k, i, j);
      TheoreticalMinimum(s, t, k, i', j');
      ResidualSteps(s, t, k, i, j);
    }
  }

  /** Going down a diagonal costs at most a substitution per step, or nothing. */
  lemma {:induction false} DownTheDiagonal<T>(s: seq<T>, t: seq<T>, k: Costs, i: nat, j: nat, p: nat, c: int)
    requires 0 <= c && k.sub <= c && i + p <= |s| && j + p <= |t|
    ensures Cell(s, t, k, i + p, j + p) <= Cell(s, t, k, i, j) + Times(p, c)
  {
    if p != 0 {
      DownTheDiagonal(s, t, k, i, j, p - 1, c);
    }
  }

  /** Even out the lengths, then substitute everything else, unless that is a gain. */
  lemma {:induction false} TheoreticalMaximum<T>(s: seq<T>, t: seq<T>, k: Costs)
    ensures Distance(s, t, k) <= Residual(s, t, k, 0, 0) + if 0 <= k.sub then Min(|s|, |t|) * k.sub else 0
  {
    var p, c := Min(|s|, |t|), if 0 <= k.sub then k.sub else 0;
    DownTheDiagonal(s, t, k, |s| - p, |t| - p, p, c);
    TimesIsProduct(p, c);
    BorderCells(s, t, k, if |s| <= |t| then |t| - p else |s| - p);
    TimesIsProduct(|t| - p, k.ins);
    TimesIsProduct(|s| - p, k.del);
  }

  /** In the first row, each column past the best one costs another insertion and deletion. */
  lemma {:induction false} FirstRowEstimate<T>(s: seq<T>, t: seq<T>, k: Costs, i: nat)
    requires i <= |s| <= |t| + i
    ensures Cell(s, t, k, i, 0) + Residual(s, t, k, i, 0)
         == Residual(s, t, k, 0, 0) + (if |t| < |s| then |t| - (|s| - i) else i) * (k.ins + k.del)
  {
    BorderCells(s, t, k, i);
    var e := |t| - (|s| - i);
    TimesIsProduct(e, k.ins);
    if |t| < |s| {
      TimesIsProduct(|s| - |t|, k.del);
      Distribute(|s| - |t|, e, k.del, k.ins);
    } else {
      TimesIsProduct(|t| - |s|, k.ins);
      Distribute(|t| - |s|, i, k.ins, k.del);
    }
  }

  lemma {:induction false} Distribute(a: int, b: int, c: int, d: int)
    ensures (a + b) * c == a * c + b * c && b * (d + c) == b * d + b * c == b * (c + d)
  {
  }

  /** The first row needs no column at or past the initial stop column. */
  lemma {:induction false} DeadPastFirstStop<T>(s: seq<T>, t: seq<T>, k: Costs, d: int, stop: nat)
    requires 0 < k.ins + k.del && Residual(s, t, k, 0, 0) <= d
    requires stop == (if |t| < |s| then |s| - |t| else 0) + (d - Residual(s, t, k, 0, 0)) / (k.ins + k.del) + 1
    ensures Dead(s, t, k, AtMost(d), 0, stop, |s| + 1)
  {
    forall i | stop <= i < |s| + 1 ensures !Live(s, t, k, AtMost(d), i, 0) {
      FirstRowEstimate(s, t, k, i);
      QuotientBound(d - Residual(s, t, k, 0, 0), k.ins + k.del, if |t| < |s| then |t| - (|s| - i) else i);
    }
  }

  lemma {:induction false} QuotientBound(a: int, c: int, n: int)
    requires 0 < c && n >= a / c + 1
    ensures n * c > a
  {
    var q := a / c;
    assert a < q * c + c;
    ProductNonNegative(n - q - 1, c);
    assert n * c == (n - q - 1) * c + q * c + c;
  }

  lemma {:induction false} ProductNonNegative(x: int, y: int)
    requires 0 <= x && 0 <= y
    ensures 0 <= x * y
  {
  }

  // ----- One row

  /** The numbers held in columns lo to hi are acceptable for row j. */
  ghost predicate Band<T>(s: seq<T>, t: seq<T>, k: Costs, b: Bound, j: nat, row: seq<int>, lo: nat, hi: nat)
    requires hi <= |row| == |s| + 1 && j <= |t|
  {
    forall i | lo <= i < hi :: Approx(s, t, k, b, i, j, row[i])
  }

  /** Columns i to hi of row j, each computed from its three neighbours, over what the row held. */
  function Fill<T(==)>(s: seq<T>, t: seq<T>, k: Costs, j: nat, prev: seq<int>, curr: seq<int>, i: nat, hi: nat): (row: seq<int>)
    requires |prev| == |curr| == |s| + 1 && 0 < j <= |t| && 0 < i && hi <= |s| + 1
    ensures |row| == |s| + 1
    decreases hi - i
  {
    if i >= hi then curr
    else
      var v := Min(Min(prev[i] + k.ins, curr[i - 1] + k.del), prev[i - 1] + SubCost(s[i - 1], t[j - 1], k));
      Fill(s, t, k, j, prev, curr[i := v], i + 1, hi)
  }

  /** The same from column lo, the first column of the matrix being all insertions. */
  function FilledRow<T(==)>(s: seq<T>, t: seq<T>, k: Costs, j: nat, prev: seq<int>, curr: seq<int>, lo: nat, hi: nat): (row: seq<int>)
    requires |prev| == |curr| == |s| + 1 && 0 < j <= |t| && hi <= |s| + 1
    ensures |row| == |s| + 1
  {
    if lo == 0 then Fill(s, t, k, j, prev, curr[0 := j * k.ins], 1, hi) else Fill(s, t, k, j, prev, curr, lo, hi)
  }

  ghost predicate Agree(row: seq<int>, row': seq<int>, n: nat) {
    n <= |row| && n <= |row'| && forall i | 0 <= i < n :: row[i] == row'[i]
  }

  lemma {:induction false} FillIsAcceptable<T>(s: seq<T>, t: seq<T>, k: Costs, b: Bound, j: nat,
                                               prev: seq<int>, curr: seq<int>, i: nat, hi: nat)
    requires |prev| == |curr| == |s| + 1 && 0 < j <= |t| && 0 < i <= hi <= |s| + 1 && Sound(k, b)
    requires Band(s, t, k, b, j - 1, prev, i - 1, hi) && Approx(s, t, k, b, i - 1, j, curr[i - 1])
    ensures var row := Fill(s, t, k, j, prev, curr, i, hi); Band(s, t, k, b, j, row, i, hi) && Agree(row, curr, i)
    decreases hi - i
  {
    if i < hi {
      var v := Min(Min(prev[i] + k.ins, curr[i - 1] + k.del), prev[i - 1] + SubCost(s[i - 1], t[j - 1], k));
      ApproxStep(s, t, k, b, i, j, prev[i], curr[i - 1], prev[i - 1]);
      var next := curr[i := v];
      FillIsAcceptable(s, t, k, b, j, prev, next, i + 1, hi);
      assert Agree(Fill(s, t, k, j, prev, next, i + 1, hi), next, i + 1);
    }
  }

  /** A row computed from an acceptable band, and what stands left of the band, is acceptable. */
  lemma {:induction false} RowIsAcceptable<T>(s: seq<T>, t: seq<T>, k: Costs, b: Bound, j: nat,
                                              prev: seq<int>, curr: seq<int>, lo: nat, hi: nat)
    requires |prev| == |curr| == |s| + 1 && 0 < j <= |t| && lo < hi <= |s| + 1 && Sound(k, b)
    requires Band(s, t, k, b, j - 1, prev, 0, hi) && Band(s, t, k, b, j, curr, 0, lo)
    ensures var row := FilledRow(s, t, k, j, prev, curr, lo, hi); Band(s, t, k, b, j, row, 0, hi) && Agree(row, curr, lo)
  {
    if lo == 0 {
      ApproxBorder(s, t, k, b, j);
      FillIsAcceptable(s, t, k, b, j, prev, curr[0 := j * k.ins], 1, hi);
    } else {
      FillIsAcceptable(s, t, k, b, j, prev, curr, lo, hi);
      var row := FilledRow(s, t, k, j, prev, curr, lo, hi);
      forall i | 0 <= i < hi ensures Approx(s, t, k, b, i, j, row[i]) {
        assert i < lo ==> row[i] == curr[i];
      }
    }
  }

  /** To turn i characters of s into none of t takes i deletions. */
  method FillFirstRow(k: Costs, prev: array<int>, stop: nat)
    requires stop <= prev.Length
    modifies prev
    ensures FirstRow(k, prev[..], stop)
  {
    for i := 0 to stop
      invariant FirstRow(k, prev[..], i)
    {
      ghost var before := prev[..];
      prev[i] := i * k.del;
      assert prev[..] == before[i := i * k.del];
    }
  }

  ghost predicate FirstRow(k: Costs, row: seq<int>, stop: nat) {
    stop <= |row| && forall i | 0 <= i < stop :: row[i] == i * k.del
  }

  /** The first row is exact. */
  lemma {:induction false} FirstRowIsAcceptable<T>(s: seq<T>, t: seq<T>, k: Costs, b: Bound, row: seq<int>, stop: nat)
    requires |row| == |s| + 1 && FirstRow(k, row, stop)
    ensures Band(s, t, k, b, 0, row, 0, stop)
  {
    forall i | 0 <= i < stop ensures Approx(s, t, k, b, i, 0, row[i]) {
      BorderCells(s, t, k, i);
    }
  }

  /**
    The inner loop: one row, left to right, from columns lo to hi. The cursor x
    into s starts at sData, which trails lo by one column once the band moves.
   */
  method FillRow<T(==)>(s: seq<T>, t: seq<T>, k: Costs, prev: array<int>, curr: array<int>, j: nat, sData: nat, lo: nat, hi: nat)
    requires prev != curr && prev.Length == curr.Length == |s| + 1 && 0 < j <= |t|
    requires lo < hi <= |s| + 1 && sData == (if lo == 0 then 0 else lo - 1)
    modifies curr
    ensures curr[..] == FilledRow(s, t, k, j, prev[..], old(curr[..]), lo, hi)
  {
    var i := lo;
    ghost var p, goal := prev[..], FilledRow(s, t, k, j, prev[..], curr[..], lo, hi);
    if lo == 0 {
      ghost var before := curr[..];
      curr[0] := j * k.ins;
      assert curr[..] == before[0 := j * k.ins];
      i := 1;
    }
    var x := sData;
    while i < hi
      invariant 0 < i <= hi && x == i - 1 && prev[..] == p
      invariant Fill(s, t, k, j, p, curr[..], i, hi) == goal
    {
      ghost var before := curr[..];
      var ins := prev[i] + k.ins;
      var del := curr[i - 1] + k.del;
      var sub := prev[i - 1] + (if s[x] == t[j - 1] then 0 else k.sub);
      assert prev[i] == p[i] && prev[i - 1] == p[i - 1] && curr[i - 1] == before[i - 1];
      curr[i] := Min(Min(ins, del), sub);
      assert curr[..] == before[i := Min(Min(ins, del), sub)];
      i, x := i + 1, x + 1;
    }
  }

  /** levenshtein_internal: the plain two-row table. */
  method Internal<T(==, !new)>(s: seq<T>, t: seq<T>, k: Costs) returns (r: Outcome)
    ensures r.TooLong? <==> s != [] && t != [] && (|s| > MAX_LEVENSHTEIN_STRLEN || |t| > MAX_LEVENSHTEIN_STRLEN)
    ensures r.Answer? ==> r.d == Distance(s, t, k) && IsLeastPrice(s, t, k, r.d)
  {
    DistanceIsLeastPrice(s, t, k);
    var m, n := |s|, |t|;
    if m == 0 {
      BorderCells(s, t, k, n);
      return Answer(n * k.ins);
    }
    if n == 0 {
      BorderCells(s, t, k, m);
      return Answer(m * k.del);
    }
    if m > MAX_LEVENSHTEIN_STRLEN || n > MAX_LEVENSHTEIN_STRLEN {
      return TooLong;
    }
    var prev, curr := new int[m + 1], new int[m + 1];
    FillFirstRow(k, prev, m + 1);
    FirstRowIsAcceptable(s, t, k, Unbounded, prev[..], m + 1);
    for j := 1 to n + 1
      invariant fresh(prev) && fresh(curr) && prev != curr && prev.Length == curr.Length == m + 1
      invariant Band(s, t, k, Unbounded, j - 1, prev[..], 0, m + 1)
    {
      RowIsAcceptable(s, t, k, Unbounded, j, prev[..], curr[..], 0, m + 1);
      FillRow(s, t, k, prev, curr, j, 0, 0, m + 1);
      prev, curr := curr, prev;
    }
    assert Approx(s, t, k, Unbounded, m, n, prev[..][m]);
    return Answer(prev[m]);
  }

  // ----- The bounded form: set-up

  /** What the program calls the distance still to go, at a column relative to the zero point. */
  function Remaining(net: int, k: Costs): int {
    if net > 0 then net * k.ins else -net * k.del
  }

  lemma {:induction false} RemainingIsResidual<T>(s: seq<T>, t: seq<T>, k: Costs, i: nat, j: nat)
    requires i <= |s| && j <= |t|
    ensures Remaining(i - (j - (|t| - |s|)), k) == Residual(s, t, k, i, j)
  {
    var net := i - (j - (|t| - |s|));
    TimesIsProduct(if net > 0 then net else -net, if net > 0 then k.ins else k.del);
  }

  function Lowered(k: Costs): Costs {
    if k.ins + k.del < k.sub then k.(sub := k.ins + k.del) else k
  }

  lemma {:induction false} LoweredKeepsDistance<T>(s: seq<T>, t: seq<T>, k: Costs)
    ensures Distance(s, t, Lowered(k)) == Distance(s, t, k)
  {
    if k.ins + k.del < k.sub {
      CheaperSubstitution(s, t, k, Lowered(k), |s|, |t|);
      CellIsMonotone(s, t, k, Lowered(k), |s|, |t|);
    }
  }

  /** What the program takes for the largest distance there can be. */
  function MaxTheo<T>(s: seq<T>, t: seq<T>, k: Costs): int {
    Residual(s, t, k, 0, 0) + Min(|s|, |t|) * Lowered(k).sub
  }

  /** A bound that is dropped was met, whatever the signs of the costs. */
  lemma {:induction false} DroppedBoundIsMet<T>(s: seq<T>, t: seq<T>, k: Costs, maxD: int)
    requires Residual(s, t, k, 0, 0) <= maxD && MaxTheo(s, t, k) <= maxD
    ensures Distance(s, t, k) <= maxD
  {
    LoweredKeepsDistance(s, t, k);
    TheoreticalMaximum(s, t, Lowered(k));
  }

  /** How much of the first row is needed: the initial stop column. */
  function FirstStop<T>(s: seq<T>, t: seq<T>, k: Costs, maxD: int): (stop: nat)
    requires Residual(s, t, k, 0, 0) <= maxD
    ensures 0 < stop <= |s| + 1
  {
    if k.ins + k.del <= 0 then |s| + 1
    else
      var best := if |t| < |s| then |s| - |t| else 0;
      Min(best + (maxD - Residual(s, t, k, 0, 0)) / (k.ins + k.del) + 1, |s| + 1)
  }

  lemma {:induction false} FirstStopIsEnough<T>(s: seq<T>, t: seq<T>, k: Costs, maxD: int)
    requires Residual(s, t, k, 0, 0) <= maxD
    ensures Dead(s, t, k, AtMost(maxD), 0, FirstStop(s, t, k, maxD), |s| + 1)
  {
    if 0 < k.ins + k.del {
      var best := if |t| < |s| then |s| - |t| else 0;
      DeadPastFirstStop(s, t, k, maxD, best + (maxD - Residual(s, t, k, 0, 0)) / (k.ins + k.del) + 1);
    }
  }

  /**
    The set-up of the bounded form: give up at once if the bound is impossibly
    tight, lower the substitution cost, drop the bound if it cannot bite, and
    otherwise find how much of the first row is needed.
   */
  method ChooseBand<T(==)>(s: seq<T>, t: seq<T>, k0: Costs, maxD0: int) returns (hopeless: bool, k: Costs, maxD: int, stop: nat)
    ensures k == if maxD0 >= 0 then Lowered(k0) else k0
    ensures hopeless <==> 0 <= maxD0 < Residual(s, t, k0, 0, 0)
    ensures !hopeless ==> maxD == if 0 <= maxD0 < MaxTheo(s, t, k0) then maxD0 else -1
    ensures !hopeless ==> stop == if 0 <= maxD then FirstStop(s, t, k, maxD) else |s| + 1
    ensures !hopeless && 0 <= maxD0 && maxD < 0 ==> Distance(s, t, k0) <= maxD0
    ensures !hopeless && 0 <= maxD ==> Dead(s, t, k, AtMost(maxD), 0, stop, |s| + 1)
  {
    hopeless, k, maxD, stop := false, k0, -1, |s| + 1;
    if maxD0 >= 0 {
      maxD := maxD0;
      var net := |t| - |s|;
      var minTheo := Remaining(net, k);
      RemainingIsResidual(s, t, k, 0, 0);
      k := Lowered(k);
      RemainingIsResidual(s, t, k, 0, 0);
      if minTheo > maxD {
        hopeless := true;
        return;
      }
      var maxTheo := minTheo + k.sub * Min(|s|, |t|);
      if maxD >= maxTheo {
        DroppedBoundIsMet(s, t, k0, maxD0);
        maxD := -1;
      } else {
        FirstStopIsEnough(s, t, k, maxD);
        if k.ins + k.del > 0 {
          var slack := maxD - minTheo;
          var best := if net < 0 then -net else 0;
          stop := best + slack / (k.ins + k.del) + 1;
          if stop > |s| {
            stop := |s| + 1;
          }
        }
      }
    }
  }

  // ----- The bounded form: how the band slides

  /** The stop column goes left past every column that is over the bound. */
  function StopAt(row: seq<int>, k: Costs, maxD: int, zp: int, stop: nat): (stop': nat)
    requires stop <= |row|
    ensures stop' <= stop
  {
    if stop == 0 || row[stop - 1] + Remaining(stop - 1 - zp, k) <= maxD then stop else StopAt(row, k, maxD, zp, stop - 1)
  }

  /** The start column goes right past every column that is over the bound. */
  function StartAt(row: seq<int>, k: Costs, maxD: int, zp: int, start: nat, stop: nat): (start': nat)
    requires stop <= |row|
    ensures start <= start' && (start < stop ==> start' <= stop) && (stop <= start ==> start' == start)
    decreases stop - start
  {
    if start >= stop || row[start] + Remaining(start - zp, k) <= maxD then start
    else StartAt(row, k, maxD, zp, start + 1, stop)
  }

  /** The row with columns lo to hi overwritten by a sentinel. */
  function Blotted(row: seq<int>, maxD: int, lo: nat, hi: nat): (r: seq<int>)
    ensures |r| == |row| && forall i | 0 <= i < |row| :: r[i] == if lo <= i < hi then maxD + 1 else row[i]
  {
    seq(|row|, i requires 0 <= i < |row| => if lo <= i < hi then maxD + 1 else row[i])
  }

  /** Every column the stop column passes over is dead. */
  lemma {:induction false} StopPassesDead<T>(s: seq<T>, t: seq<T>, k: Costs, maxD: nat, j: nat, row: seq<int>, stop: nat)
    requires k.NonNegative() && |row| == |s| + 1 && j <= |t| && stop <= |s| + 1
    requires Band(s, t, k, AtMost(maxD), j, row, 0, stop) && Dead(s, t, k, AtMost(maxD), j, stop, |s| + 1)
    ensures Dead(s, t, k, AtMost(maxD), j, StopAt(row, k, maxD, j - (|t| - |s|), stop), |s| + 1)
  {
    if stop != 0 {
      RemainingIsResidual(s, t, k, stop - 1, j);
      if row[stop - 1] + Remaining(stop - 1 - (j - (|t| - |s|)), k) > maxD {
        StopPassesDead(s, t, k, maxD, j, row, stop - 1);
      }
    }
  }

  /** Every column the start column passes over is dead, and where it halts is not. */
  lemma {:induction false} StartPassesDead<T>(s: seq<T>, t: seq<T>, k: Costs, maxD: nat, j: nat, row: seq<int>, start: nat, stop: nat)
    requires k.NonNegative() && |row| == |s| + 1 && j <= |t| && start <= |s| + 1 && stop <= |s| + 1
    requires Band(s, t, k, AtMost(maxD), j, row, 0, stop) && Dead(s, t, k, AtMost(maxD), j, 0, start)
    ensures var start' := StartAt(row, k, maxD, j - (|t| - |s|), start, stop);
            Dead(s, t, k, AtMost(maxD), j, 0, start') && (start' < stop ==> Live(s, t, k, AtMost(maxD), start', j))
    decreases stop - start
  {
    if start < stop {
      RemainingIsResidual(s, t, k, start, j);
      if row[start] + Remaining(start - (j - (|t| - |s|)), k) > maxD {
        StartPassesDead(s, t, k, maxD, j, row, start + 1, stop);
      }
    }
  }

  method SlideStop(k: Costs, maxD: nat, prev: array<int>, zp: int, stop: nat) returns (stop': nat)
    requires stop <= prev.Length
    ensures stop' == StopAt(prev[..], k, maxD, zp, stop)
  {
    stop' := stop;
    while stop' > 0
      invariant stop' <= stop && StopAt(prev[..], k, maxD, zp, stop') == StopAt(prev[..], k, maxD, zp, stop)
    {
      var ii := stop' - 1;
      if prev[ii] + Remaining(ii - zp, k) <= maxD {
        break;
      }
      stop' := stop' - 1;
    }
  }

  /** The columns passed over are blotted out in both rows, and the read position moves along. */
  method SlideStart(k: Costs, maxD: nat, prev: array<int>, curr: array<int>, zp: int, sData: nat, start: nat, stop: nat)
    returns (sData': nat, start': nat)
    requires prev != curr && stop <= prev.Length == curr.Length && sData == (if start == 0 then 0 else start - 1)
    modifies prev, curr
    ensures start' == StartAt(old(prev[..]), k, maxD, zp, start, stop)
    ensures prev[..] == Blotted(old(prev[..]), maxD, start, start')
    ensures curr[..] == Blotted(old(curr[..]), maxD, start, start')
    ensures sData' == (if start' == 0 then 0 else start' - 1)
  {
    ghost var p, c := prev[..], curr[..];
    sData', start' := sData, start;
    while start' < stop
      invariant start <= start' && sData' == (if start' == 0 then 0 else start' - 1)
      invariant StartAt(p, k, maxD, zp, start', stop) == StartAt(p, k, maxD, zp, start, stop)
      invariant prev[..] == Blotted(p, maxD, start, start') && curr[..] == Blotted(c, maxD, start, start')
    {
      assert prev[start'] == prev[..][start'] == p[start'];
      if prev[start'] + Remaining(start' - zp, k) <= maxD {
        break;
      }
      Blot(prev, maxD, start', start, p);
      Blot(curr, maxD, start', start, c);
      if start' != 0 {
        sData' := sData' + 1;
      }
      start' := start' + 1;
    }
  }

  /** One more column of the row is overwritten. */
  method Blot(row: array<int>, maxD: int, i: nat, ghost lo: nat, ghost was: seq<int>)
    requires lo <= i < row.Length && row[..] == Blotted(was, maxD, lo, i)
    modifies row
    ensures row[..] == Blotted(was, maxD, lo, i + 1)
  {
    ghost var before := row[..];
    row[i] := maxD + 1;
    assert row[..] == before[i := maxD + 1];
  }

  // ----- The bounded form: the loop over rows

  /** The two rows and the band, as they are between rows. */
  datatype Rows = Rows(prev: seq<int>, curr: seq<int>, start: nat, stop: nat) {
    predicate Ready(m: nat) {
      |prev| == |curr| == m + 1 && start < stop <= m + 1
    }
  }

  /** Before a row the stop column moves right by one, over a sentinel. */
  function Widened(a: Rows, m: nat, maxD: int): (b: Rows)
    requires a.Ready(m)
    ensures b.Ready(m)
  {
    if a.stop < m + 1 then a.(prev := a.prev[a.stop := maxD + 1], stop := a.stop + 1) else a
  }

  /** The row is computed and the two change places. */
  function Advanced<T(==)>(s: seq<T>, t: seq<T>, k: Costs, j: nat, a: Rows): (b: Rows)
    requires a.Ready(|s|) && 0 < j <= |t|
    ensures b.Ready(|s|)
  {
    a.(prev := FilledRow(s, t, k, j, a.prev, a.curr, a.start, a.stop), curr := a.prev)
  }

  /** The band slides. */
  function Slid(a: Rows, k: Costs, maxD: int, zp: int, m: nat): (b: Rows)
    requires a.Ready(m)
    ensures |b.prev| == |b.curr| == m + 1 && b.stop <= m + 1
  {
    var stop := StopAt(a.prev, k, maxD, zp, a.stop);
    var start := StartAt(a.prev, k, maxD, zp, a.start, stop);
    Rows(Blotted(a.prev, maxD, a.start, start), Blotted(a.curr, maxD, a.start, start), start, stop)
  }

  /** What the rows from j on make of the two rows. */
  function Bounded<T(==)>(s: seq<T>, t: seq<T>, k: Costs, maxD: int, j: nat, a: Rows): int
    requires a.Ready(|s|) && 0 < j <= |t| + 1
    decreases |t| + 1 - j
  {
    if j == |t| + 1 then a.prev[|s|]
    else
      var b := Advanced(s, t, k, j, Widened(a, |s|, maxD));
      if maxD < 0 then Bounded(s, t, k, maxD, j + 1, b)
      else
        var c := Slid(b, k, maxD, j - (|t| - |s|), |s|);
        if c.start >= c.stop then maxD + 1 else Bounded(s, t, k, maxD, j + 1, c)
  }

  /** d comes of two rows of which only the start of the first has been written. */
  ghost predicate RunsTo<T>(s: seq<T>, t: seq<T>, k: Costs, maxD: int, stop: nat, d: int) {
    exists a: Rows :: Begins(a, |s|, k, stop) && d == Bounded(s, t, k, maxD, 1, a)
  }

  ghost predicate Begins(a: Rows, m: nat, k: Costs, stop: nat) {
    a.Ready(m) && a.start == 0 && a.stop == stop && FirstRow(k, a.prev, stop)
  }

  /** One pass of the outer loop, in two steps. */
  lemma {:induction false} BoundedStep<T>(s: seq<T>, t: seq<T>, k: Costs, maxD: int, j: nat, a: Rows, b: Rows, c: Rows)
    requires a.Ready(|s|) && 0 < j <= |t| && b == Advanced(s, t, k, j, Widened(a, |s|, maxD))
    requires c == if maxD < 0 then b else Slid(b, k, maxD, j - (|t| - |s|), |s|)
    ensures |c.prev| == |c.curr| == |s| + 1 && c.stop <= |s| + 1 && (maxD < 0 ==> c.start < c.stop)
    ensures Bounded(s, t, k, maxD, j, a) == if c.start >= c.stop then maxD + 1 else Bounded(s, t, k, maxD, j + 1, c)
  {
  }

  /** One more column, then the row, computed into curr. */
  method ComputeRow<T(==)>(s: seq<T>, t: seq<T>, k: Costs, maxD: int, prev: array<int>, curr: array<int>, j: nat,
                           sData: nat, start: nat, stop: nat, ghost a: Rows)
    returns (stop': nat, ghost b: Rows)
    requires prev != curr && prev.Length == curr.Length == |s| + 1 && 0 < j <= |t|
    requires a == Rows(prev[..], curr[..], start, stop)
    requires start < stop <= |s| + 1 && sData == (if start == 0 then 0 else start - 1)
    modifies prev, curr
    ensures b == Rows(curr[..], prev[..], start, stop') && start < stop' <= |s| + 1
    ensures b == Advanced(s, t, k, j, Widened(a, |s|, maxD))
  {
    stop' := stop;
    if stop < |s| + 1 {
      prev[stop] := maxD + 1;
      assert prev[..] == old(prev[..])[stop := maxD + 1];
      stop' := stop + 1;
    }
    FillRow(s, t, k, prev, curr, j, sData, start, stop');
    b := Rows(curr[..], prev[..], start, stop');
  }

  /** The band slides, first its right end, then its left. */
  method SlideBand(k: Costs, maxD: nat, prev: array<int>, curr: array<int>, zp: int, sData: nat, start: nat, stop: nat, ghost a: Rows)
    returns (sData': nat, start': nat, stop': nat, ghost b: Rows)
    requires prev != curr && stop <= prev.Length == curr.Length && start < stop && sData == (if start == 0 then 0 else start - 1)
    requires a == Rows(prev[..], curr[..], start, stop)
    modifies prev, curr
    ensures b == Rows(prev[..], curr[..], start', stop') && sData' == (if start' == 0 then 0 else start' - 1)
    ensures b == Slid(a, k, maxD, zp, prev.Length - 1)
  {
    stop' := SlideStop(k, maxD, prev, zp, stop);
    sData', start' := SlideStart(k, maxD, prev, curr, zp, sData, start, stop');
    b := Rows(prev[..], curr[..], start', stop');
  }

  /** One pass of the outer loop, before the rows change places. */
  method OneRow<T(==)>(s: seq<T>, t: seq<T>, k: Costs, maxD: int, prev: array<int>, curr: array<int>, j: nat,
                       sData: nat, start: nat, stop: nat, ghost a: Rows)
    returns (sData': nat, start': nat, stop': nat, ghost c: Rows)
    requires prev != curr && prev.Length == curr.Length == |s| + 1 && 0 < j <= |t|
    requires start < stop <= |s| + 1 && sData == (if start == 0 then 0 else start - 1)
    requires a == Rows(prev[..], curr[..], start, stop)
    modifies prev, curr
    ensures c == Rows(curr[..], prev[..], start', stop') && sData' == (if start' == 0 then 0 else start' - 1)
    ensures stop' <= |s| + 1 && (maxD < 0 ==> start' < stop')
    ensures Bounded(s, t, k, maxD, j, a) == if start' >= stop' then maxD + 1 else Bounded(s, t, k, maxD, j + 1, c)
  {
    sData', start' := sData, start;
    ghost var b;
    stop', b := ComputeRow(s, t, k, maxD, prev, curr, j, sData, start, stop, a);
    c := b;
    if maxD >= 0 {
      sData', start', stop', c := SlideBand(k, maxD, curr, prev, j - (|t| - |s|), sData, start, stop', b);
    }
    BoundedStep(s, t, k, maxD, j, a, b, c);
  }

  /** The rows of the bounded form, the band sliding with them. */
  method BandedRows<T(==)>(s: seq<T>, t: seq<T>, k: Costs, maxD: int, stop0: nat) returns (d: int)
    requires s != [] && t != [] && 0 < stop0 <= |s| + 1
    ensures RunsTo(s, t, k, maxD, stop0, d)
  {
    var m, n := |s|, |t|;
    var sData, start, stop := 0, 0, stop0;
    var prev, curr := new int[m + 1], new int[m + 1];
    FillFirstRow(k, prev, stop);
    ghost var a0 := Rows(prev[..], curr[..], start, stop);
    assert Begins(a0, m, k, stop0);
    ghost var a := a0;
    for j := 1 to n + 1
      invariant fresh(prev) && fresh(curr) && prev != curr && prev.Length == curr.Length == m + 1
      invariant sData == (if start == 0 then 0 else start - 1) && start < stop <= m + 1
      invariant a == Rows(prev[..], curr[..], start, stop) && Bounded(s, t, k, maxD, j, a) == Bounded(s, t, k, maxD, 1, a0)
    {
      sData, start, stop, a := OneRow(s, t, k, maxD, prev, curr, j, sData, start, stop, a);
      prev, curr := curr, prev;
      if start >= stop {
        return maxD + 1;
      }
    }
    return prev[m];
  }

  // ----- The bounded form: what it keeps

  /** Columns that are never written again hold a sentinel. */
  ghost predicate Sentinels(row: seq<int>, maxD: int, lo: nat)
    requires lo <= |row|
  {
    forall i | 0 <= i < lo :: row[i] == maxD + 1
  }

  /** A sentinel stands for any dead cell. */
  lemma {:induction false} SentinelIsApprox<T>(s: seq<T>, t: seq<T>, k: Costs, maxD: int, i: nat, j: nat)
    requires k.NonNegative() && i <= |s| && j <= |t|
    requires !Live(s, t, k, AtMost(maxD), i, j)
    ensures Approx(s, t, k, AtMost(maxD), i, j, maxD + 1)
  {
    ResidualNonNegative(s, t, k, i, j);
  }

  /** Row j is acceptable within the band and dead outside it, where sentinels stand on the left. */
  ghost predicate Holds<T>(s: seq<T>, t: seq<T>, k: Costs, maxD: nat, j: nat, a: Rows)
    requires j <= |t|
  {
    && a.Ready(|s|) && Sentinels(a.prev, maxD, a.start) && Sentinels(a.curr, maxD, a.start)
    && Band(s, t, k, AtMost(maxD), j, a.prev, 0, a.stop)
    && Dead(s, t, k, AtMost(maxD), j, 0, a.start) && Dead(s, t, k, AtMost(maxD), j, a.stop, |s| + 1)
  }

  /** One more column, over a sentinel, is all the next row needs. */
  lemma {:induction false} WideningHolds<T>(s: seq<T>, t: seq<T>, k: Costs, maxD: nat, j: nat, a: Rows)
    requires k.NonNegative() && 0 < j <= |t| && Holds(s, t, k, maxD, j - 1, a)
    ensures var b := Widened(a, |s|, maxD);
            && b.start == a.start && b.curr == a.curr
            && Sentinels(b.prev, maxD, b.start) && Band(s, t, k, AtMost(maxD), j - 1, b.prev, 0, b.stop)
            && Dead(s, t, k, AtMost(maxD), j, b.stop, |s| + 1)
  {
    if a.stop < |s| + 1 {
      SentinelIsApprox(s, t, k, maxD, a.stop, j - 1);
      DeadOnTheRight(s, t, k, AtMost(maxD), a.stop, j);
    }
  }

  /** The sentinels stand for the dead columns of the next row as well. */
  lemma {:induction false} SentinelsStand<T>(s: seq<T>, t: seq<T>, k: Costs, maxD: nat, j: nat, row: seq<int>, lo: nat)
    requires k.NonNegative() && j <= |t| && lo <= |s| && |row| == |s| + 1
    requires Sentinels(row, maxD, lo) && Dead(s, t, k, AtMost(maxD), j, 0, lo)
    ensures Band(s, t, k, AtMost(maxD), j, row, 0, lo)
  {
    forall i | 0 <= i < lo ensures Approx(s, t, k, AtMost(maxD), i, j, row[i]) {
      SentinelIsApprox(s, t, k, maxD, i, j);
    }
  }

  /** After the row has been computed all holds of it. */
  lemma {:induction false} AdvancingHolds<T>(s: seq<T>, t: seq<T>, k: Costs, maxD: nat, j: nat, a: Rows)
    requires k.NonNegative() && 0 < j <= |t| && Holds(s, t, k, maxD, j - 1, a)
    ensures Holds(s, t, k, maxD, j, Advanced(s, t, k, j, Widened(a, |s|, maxD)))
  {
    WideningHolds(s, t, k, maxD, j, a);
    DeadOnTheLeft(s, t, k, AtMost(maxD), a.start, j);
    SentinelsStand(s, t, k, maxD, j, a.curr, a.start);
    var b := Widened(a, |s|, maxD);
    RowIsAcceptable(s, t, k, AtMost(maxD), j, b.prev, b.curr, b.start, b.stop);
  }

  /** Sliding keeps all that, and the band starts at a live cell; or the row is dead. */
  lemma {:induction false} SlidingHolds<T>(s: seq<T>, t: seq<T>, k: Costs, maxD: nat, j: nat, a: Rows)
    requires k.NonNegative() && j <= |t| && Holds(s, t, k, maxD, j, a)
    ensures var b := Slid(a, k, maxD, j - (|t| - |s|), |s|);
            if b.start < b.stop then Holds(s, t, k, maxD, j, b) && Live(s, t, k, AtMost(maxD), b.start, j)
            else Dead(s, t, k, AtMost(maxD), j, 0, |s| + 1)
  {
    var b := Slid(a, k, maxD, j - (|t| - |s|), |s|);
    StopPassesDead(s, t, k, maxD, j, a.prev, a.stop);
    StartPassesDead(s, t, k, maxD, j, a.prev, a.start, b.stop);
    forall i | 0 <= i < b.stop ensures Approx(s, t, k, AtMost(maxD), i, j, b.prev[i]) {
      if a.start <= i < b.start {
        SentinelIsApprox(s, t, k, maxD, i, j);
      }
    }
  }

  /** The bounded loop: the distance if it is within the bound, one more than the bound if not. */
  lemma {:induction false} BoundedIsCapped<T>(s: seq<T>, t: seq<T>, k: Costs, maxD: nat, j: nat, a: Rows)
    requires k.NonNegative() && 0 < j <= |t| + 1 && Holds(s, t, k, maxD, j - 1, a)
    requires j == |t| + 1 ==> Live(s, t, k, AtMost(maxD), a.start, |t|)
    ensures Bounded(s, t, k, maxD, j, a) == Capped(Distance(s, t, k), maxD)
    decreases |t| + 1 - j
  {
    if j == |t| + 1 {
      LiveInLastRow(s, t, k, AtMost(maxD), a.start);
    } else {
      AdvancingHolds(s, t, k, maxD, j, a);
      var b := Advanced(s, t, k, j, Widened(a, |s|, maxD));
      SlidingHolds(s, t, k, maxD, j, b);
      var c := Slid(b, k, maxD, j - (|t| - |s|), |s|);
      if c.start >= c.stop {
        DeadRow(s, t, k, AtMost(maxD), j);
      } else {
        BoundedIsCapped(s, t, k, maxD, j + 1, c);
      }
    }
  }

  /** Without a bound the loop gives the distance, whatever the signs of the costs. */
  lemma {:induction false} UnboundedIsDistance<T>(s: seq<T>, t: seq<T>, k: Costs, maxD: int, j: nat, a: Rows)
    requires maxD < 0 && 0 < j <= |t| + 1 && a.Ready(|s|) && a.start == 0 && a.stop == |s| + 1
    requires Band(s, t, k, Unbounded, j - 1, a.prev, 0, |s| + 1)
    ensures Bounded(s, t, k, maxD, j, a) == Distance(s, t, k)
    decreases |t| + 1 - j
  {
    if j <= |t| {
      RowIsAcceptable(s, t, k, Unbounded, j, a.prev, a.curr, 0, |s| + 1);
      UnboundedIsDistance(s, t, k, maxD, j + 1, Advanced(s, t, k, j, a));
    }
  }

  function Capped(d: int, maxD: int): int {
    if d <= maxD then d else maxD + 1
  }

  /** A run over all columns without a bound gives the distance. */
  lemma {:induction false} UnboundedRun<T>(s: seq<T>, t: seq<T>, k: Costs, d: int)
    requires s != [] && t != [] && RunsTo(s, t, k, -1, |s| + 1, d)
    ensures d == Distance(s, t, k)
  {
    var a: Rows :| Begins(a, |s|, k, |s| + 1) && d == Bounded(s, t, k, -1, 1, a);
    FirstRowIsAcceptable(s, t, k, Unbounded, a.prev, |s| + 1);
    UnboundedIsDistance(s, t, k, -1, 1, a);
  }

  /** A run with a bound over enough of the first row is right. */
  lemma {:induction false} BoundedRun<T>(s: seq<T>, t: seq<T>, k: Costs, maxD: nat, stop: nat, d: int)
    requires s != [] && t != [] && k.NonNegative() && RunsTo(s, t, k, maxD, stop, d)
    requires stop <= |s| + 1 && Dead(s, t, k, AtMost(maxD), 0, stop, |s| + 1)
    ensures d == Capped(Distance(s, t, k), maxD)
  {
    var a: Rows :| Begins(a, |s|, k, stop) && d == Bounded(s, t, k, maxD, 1, a);
    assert Holds(s, t, k, maxD, 0, a) by {
      FirstRowIsAcceptable(s, t, k, AtMost(maxD), a.prev, a.stop);
    }
    BoundedIsCapped(s, t, k, maxD, 1, a);
  }

  // ----- The bounded form as a whole

  /** d is what the bounded form returns for two strings that are not empty and a bound. */
  ghost predicate Returned<T>(s: seq<T>, t: seq<T>, k: Costs, maxD: nat, d: int) {
    if maxD < Residual(s, t, k, 0, 0) then d == maxD + 1
    else if MaxTheo(s, t, k) <= maxD then RunsTo(s, t, Lowered(k), -1, |s| + 1, d)
    else RunsTo(s, t, Lowered(k), maxD, FirstStop(s, t, Lowered(k), maxD), d)
  }

  /**
    levenshtein_less_equal_internal: the exact distance if it is within the
    bound (or there is no bound), one more than the bound if it is not.
   */
  method LessEqual<T(==, !new)>(s: seq<T>, t: seq<T>, k0: Costs, maxD0: int) returns (r: Outcome)
    ensures r.TooLong? <==> s != [] && t != [] && (|s| > MAX_LEVENSHTEIN_STRLEN || |t| > MAX_LEVENSHTEIN_STRLEN)
    ensures r.Answer? && (maxD0 < 0 || s == [] || t == []) ==> r.d == Distance(s, t, k0)
    ensures r.Answer? && 0 <= maxD0 && s != [] && t != [] ==> Returned(s, t, k0, maxD0, r.d)
    ensures r.Answer? && 0 <= maxD0 && s != [] && t != [] && BoundFits(k0) ==> r.d == Capped(Distance(s, t, k0), maxD0)
    ensures r.Answer? && s != [] && t != [] && 0 <= maxD0 && Residual(s, t, k0, 0, 0) <= maxD0 && MaxTheo(s, t, k0) <= maxD0 ==>
              r.d == Distance(s, t, k0) <= maxD0
  {
    var m, n := |s|, |t|;
    if m == 0 {
      BorderCells(s, t, k0, n);
      return Answer(n * k0.ins);
    }
    if n == 0 {
      BorderCells(s, t, k0, m);
      return Answer(m * k0.del);
    }
    if m > MAX_LEVENSHTEIN_STRLEN || n > MAX_LEVENSHTEIN_STRLEN {
      return TooLong;
    }
    var hopeless, k, maxD, stop := ChooseBand(s, t, k0, maxD0);
    var d := maxD0 + 1;
    if !hopeless {
      d := BandedRows(s, t, k, maxD, stop);
    }
    if maxD0 < 0 {
      UnboundedRun(s, t, k, d);
    } else {
      ReturnedIsRight(s, t, k0, maxD0, d);
    }
    return Answer(d);
  }

  /**
    The costs a bound is right for: none is negative, or neither an insertion nor
    a deletion is charged for, or what a substitution comes to is nothing.
   */
  predicate BoundFits(k: Costs) {
    || k.NonNegative()
    || (k.ins <= 0 && k.del <= 0)
    || Min(k.sub, k.ins + k.del) == 0
  }

  /** For such costs what is returned is right; for any costs if the bound is dropped. */
  lemma {:induction false} ReturnedIsRight<T>(s: seq<T>, t: seq<T>, k: Costs, maxD: nat, d: int)
    requires s != [] && t != [] && Returned(s, t, k, maxD, d)
    ensures BoundFits(k) ==> d == Capped(Distance(s, t, k), maxD)
    ensures Residual(s, t, k, 0, 0) <= maxD && MaxTheo(s, t, k) <= maxD ==> d == Distance(s, t, k) <= maxD
  {
    LoweredKeepsDistance(s, t, k);
    if maxD < Residual(s, t, k, 0, 0) {
      if BoundFits(k) {
        HopelessIsRight(s, t, k, maxD);
      }
    } else if MaxTheo(s, t, k) <= maxD {
      DroppedBoundIsMet(s, t, k, maxD);
      UnboundedRun(s, t, Lowered(k), d);
    } else if BoundFits(k) {
      BoundInForce(s, t, k, maxD);
      FirstStopIsEnough(s, t, Lowered(k), maxD);
      BoundedRun(s, t, Lowered(k), maxD, FirstStop(s, t, Lowered(k), maxD), d);
    }
  }

  lemma {:induction false} HopelessIsRight<T>(s: seq<T>, t: seq<T>, k: Costs, maxD: nat)
    requires BoundFits(k) && maxD < Residual(s, t, k, 0, 0)
    ensures maxD < Distance(s, t, k)
  {
    if k.ins <= 0 && k.del <= 0 {
      ResidualNotPositive(s, t, k);
    } else {
      TheoreticalMinimum(s, t, k, |s|, |t|);
    }
  }

  /** A bound that stays in force bounds a sum of charges. */
  lemma {:induction false} BoundInForce<T>(s: seq<T>, t: seq<T>, k: Costs, maxD: nat)
    requires BoundFits(k) && Residual(s, t, k, 0, 0) <= maxD < MaxTheo(s, t, k)
    ensures Lowered(k).NonNegative()
  {
    if k.ins <= 0 && k.del <= 0 {
      ResidualNotPositive(s, t, k);
      ProductNonNegative(Min(|s|, |t|), -Lowered(k).sub);
    }
  }

  lemma {:induction false} ResidualNotPositive<T>(s: seq<T>, t: seq<T>, k: Costs)
    requires k.ins <= 0 && k.del <= 0
    ensures Residual(s, t, k, 0, 0) <= 0
  {
    var n := if |t| > |s| then |t| - |s| else |s| - |t|;
    TimesIsProduct(n, if |t| > |s| then k.ins else k.del);
    ProductNonNegative(n, if |t| > |s| then -k.ins else -k.del);
  }

  // ----- Costs the bound does not fit

  /** Column 1 of the row is read off a sentinel, which is worth an insertion too much. */
  lemma {:induction false} SentinelIsInserted(k: Costs, a: Rows)
    requires k.ins < 0 < k.sub && 0 < k.ins + k.del && k == Lowered(k)
    requires Begins(a, 1, k, 1)
    ensures Bounded("a", "b", k, 0, 1, a) == 1 + k.ins
  {
    var w := Widened(a, 1, 0);
    var b := Advanced("a", "b", k, 1, w);
    assert a.prev[0] == 0 * k.del == 0;
    assert b.prev == Fill("a", "b", k, 1, w.prev, a.curr[0 := 1 * k.ins], 1, 2);
    assert b.prev == a.curr[0 := k.ins][1 := 1 + k.ins];
    var c := Slid(b, k, 0, 1, 1);
    assert Remaining(0, k) == 0 && Remaining(-1, k) == k.del;
    assert StopAt(b.prev, k, 0, 1, 2) == 2;
    assert StartAt(b.prev, k, 0, 1, 1, 2) == 1;
    assert StartAt(b.prev, k, 0, 1, 0, 2) == 1;
    BoundedStep("a", "b", k, 0, 1, a, b, c);
  }

  /** The first row of the other example: the diagonal is exact, the first column is blotted out. */
  lemma {:induction false} FirstColumnIsBlotted(k: Costs, a: Rows) returns (c: Rows)
    requires k.del < 0 < k.sub && 0 < k.ins + k.del
    requires Begins(a, 2, k, 1)
    ensures c.Ready(2) && c.start == 1 && c.stop == 2 && c.prev[0] == c.curr[0] == 1 && c.prev[1] == 0
    ensures Bounded("aa", "aa", k, 0, 1, a) == Bounded("aa", "aa", k, 0, 2, c)
  {
    var w := Widened(a, 2, 0);
    var b := Advanced("aa", "aa", k, 1, w);
    assert a.prev[0] == 0 * k.del == 0;
    assert b.prev == Fill("aa", "aa", k, 1, w.prev, a.curr[0 := 1 * k.ins], 1, 2);
    assert b.prev == a.curr[0 := k.ins][1 := 0];
    c := Slid(b, k, 0, 1, 2);
    assert Remaining(0, k) == 0 && Remaining(-1, k) == k.del;
    assert StopAt(b.prev, k, 0, 1, 2) == 2;
    assert StartAt(b.prev, k, 0, 1, 1, 2) == 1;
    assert StartAt(b.prev, k, 0, 1, 0, 2) == 1;
    BoundedStep("aa", "aa", k, 0, 1, a, b, c);
  }

  /** The second: two deletions lead from the sentinel to the last column. */
  lemma {:induction false} SentinelIsDeleted(k: Costs, a: Rows)
    requires k.del < 0 < k.sub && 0 < k.ins + k.del
    requires a.Ready(2) && a.start == 1 && a.stop == 2 && a.prev[0] == a.curr[0] == 1 && a.prev[1] == 0
    ensures Bounded("aa", "aa", k, 0, 2, a) == 1 + 2 * k.del
  {
    var w := Widened(a, 2, 0);
    var b := Advanced("aa", "aa", k, 2, w);
    assert b.prev == Fill("aa", "aa", k, 2, w.prev, a.curr, 1, 3);
    var row := a.curr[1 := 1 + k.del];
    assert b.prev == Fill("aa", "aa", k, 2, w.prev, row, 2, 3);
    assert b.prev == row[2 := 1 + 2 * k.del];
    var c := Slid(b, k, 0, 2, 2);
    assert Remaining(0, k) == 0 && Remaining(-1, k) == k.del;
    assert StopAt(b.prev, k, 0, 2, 3) == 3;
    assert StartAt(b.prev, k, 0, 2, 1, 3) == 1;
    BoundedStep("aa", "aa", k, 0, 2, a, b, c);
  }

  lemma {:induction false} SentinelIsDeletedTwice(k: Costs, a: Rows)
    requires k.del < 0 < k.sub && 0 < k.ins + k.del && Begins(a, 2, k, 1)
    ensures Bounded("aa", "aa", k, 0, 1, a) == 1 + 2 * k.del
  {
    var c := FirstColumnIsBlotted(k, a);
    SentinelIsDeleted(k, c);
  }

  /** A distance below the cost of evening out the lengths, on which the set-up gives up. */
  lemma {:induction false} GainIsGivenUp(k: Costs)
    requires k.sub < 0 || k.ins + k.del < 0
    ensures 0 < k.ins ==> Residual("a", "bc", k, 0, 0) == k.ins > Distance("a", "bc", k)
    ensures 0 < k.del ==> Residual("ab", "c", k, 0, 0) == k.del > Distance("ab", "c", k)
  {
    TimesIsProduct(1, k.ins);
    TimesIsProduct(1, k.del);
    assert Cell("a", "bc", k, 0, 2) == Cell("a", "bc", k, 0, 1) + k.ins == 2 * k.ins;
    assert Cell("a", "bc", k, 1, 1) <= Cell("a", "bc", k, 0, 0) + k.sub;
    assert Cell("ab", "c", k, 2, 0) == Cell("ab", "c", k, 1, 0) + k.del == 2 * k.del;
    assert Cell("ab", "c", k, 1, 1) <= Cell("ab", "c", k, 0, 0) + k.sub;
  }

  /** d is the only thing that can be returned, and it is wrong. */
  ghost predicate Misled(k: Costs, s: string, t: string, maxD: nat, d: int) {
    && 0 < |s| <= 2 && 0 < |t| <= 2
    && Returned(s, t, k, maxD, d) && (forall d' | Returned(s, t, k, maxD, d') :: d' == d)
    && d != Capped(Distance(s, t, k), maxD)
  }

  /** A run that comes to the same whatever the rows held is the only one. */
  lemma {:induction false} OnlyRun(s: string, t: string, k: Costs, maxD: nat, d: int)
    requires s != [] && t != [] && Residual(s, t, k, 0, 0) <= maxD < MaxTheo(s, t, k) && FirstStop(s, t, Lowered(k), maxD) == 1
    requires forall a | Begins(a, |s|, Lowered(k), 1) :: Bounded(s, t, Lowered(k), maxD, 1, a) == d
    ensures Returned(s, t, k, maxD, d) && forall d' | Returned(s, t, k, maxD, d') :: d' == d
  {
    var a := Rows(seq(|s| + 1, _ => 0), seq(|s| + 1, _ => 0), 0, 1);
    assert Begins(a, |s|, Lowered(k), 1);
  }

  lemma {:induction false} InsertionMisleads(k: Costs)
    requires k.ins < 0 < k.sub && 0 < k.ins + k.del
    ensures Misled(k, "a", "b", 0, 1 + k.ins)
  {
    var low := Lowered(k);
    assert Residual("a", "b", k, 0, 0) == Residual("a", "b", low, 0, 0) == 0;
    assert MaxTheo("a", "b", k) == 1 * low.sub;
    assert FirstStop("a", "b", low, 0) == 1;
    assert Distance("a", "b", k) > 0 by {
      assert Cell("a", "b", k, 0, 1) == k.ins && Cell("a", "b", k, 1, 0) == k.del;
    }
    forall a | Begins(a, 1, low, 1) ensures Bounded("a", "b", low, 0, 1, a) == 1 + k.ins {
      SentinelIsInserted(low, a);
    }
    OnlyRun("a", "b", k, 0, 1 + k.ins);
  }

  lemma {:induction false} DeletionMisleads(k: Costs)
    requires k.del < 0 < k.sub && 0 < k.ins + k.del
    ensures Misled(k, "aa", "aa", 0, 1 + 2 * k.del)
  {
    var low := Lowered(k);
    assert Residual("aa", "aa", k, 0, 0) == Residual("aa", "aa", low, 0, 0) == 0;
    assert MaxTheo("aa", "aa", k) == 2 * low.sub;
    assert FirstStop("aa", "aa", low, 0) == 1;
    assert Distance("aa", "aa", k) >= 0 by {
      TheoreticalMinimum("aa", "aa", k, 2, 2);
    }
    forall a | Begins(a, 2, low, 1) ensures Bounded("aa", "aa", low, 0, 1, a) == 1 + 2 * k.del {
      SentinelIsDeletedTwice(low, a);
    }
    OnlyRun("aa", "aa", k, 0, 1 + 2 * k.del);
  }

  /** Any other costs have an input on which they mislead. */
  lemma {:induction false} UnfitCostsMislead(k: Costs) returns (s: string, t: string, maxD: nat, d: int)
    requires !BoundFits(k)
    ensures Misled(k, s, t, maxD, d)
  {
    if Min(k.sub, k.ins + k.del) < 0 {
      GainIsGivenUp(k);
      if 0 < k.ins {
        return "a", "bc", k.ins - 1, k.ins;
      } else {
        return "ab", "c", k.del - 1, k.del;
      }
    } else if k.ins < 0 {
      InsertionMisleads(k);
      return "a", "b", 0, 1 + k.ins;
    } else {
      DeletionMisleads(k);
      return "aa", "aa", 0, 1 + 2 * k.del;
    }
  }

  /** The costs for which the bounded form is right, for all strings and all bounds. */
  lemma {:induction false} BoundFitsExactly(k: Costs)
    ensures BoundFits(k) <==>
            forall s: string, t: string, maxD: nat, d: int | s != [] && t != [] && Returned(s, t, k, maxD, d) ::
              d == Capped(Distance(s, t, k), maxD)
  {
    if BoundFits(k) {
      forall s: string, t: string, maxD: nat, d: int | s != [] && t != [] && Returned(s, t, k, maxD, d)
        ensures d == Capped(Distance(s, t, k), maxD)
      {
        ReturnedIsRight(s, t, k, maxD, d);
      }
    } else {
      var s, t, maxD, d := UnfitCostsMislead(k);
    }
  }
}
