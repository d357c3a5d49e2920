/**
  Blocks of memory: the limit of palloc and repalloc (MaxAllocSize of
  src/include/utils/memutils.h), and blocks that grow by doubling until the limit
  stops them.
 */
module Alloc {
  const MAX_ALLOC: nat := 0x3fff_ffff

  /** The size after doubling k times. */
  function Doubled(first: nat, k: nat): nat {
    if k == 0 then first else 2 * Doubled(first, k - 1)
  }

  ghost predicate Grown(first: nat, len: nat) {
    exists k: nat :: len == Doubled(first, k)
  }

  lemma {:induction false} GrownOnce(first: nat, len: nat)
    requires Grown(first, len)
    ensures Grown(first, 2 * len)
  {
    var k: nat :| len == Doubled(first, k);
    assert 2 * len == Doubled(first, k + 1);
  }

  lemma {:induction false} DoubledGrows(first: nat, i: nat, j: nat)
    requires i <= j
    ensures Doubled(first, i) <= Doubled(first, j) && (i < j ==> 2 * Doubled(first, i) <= Doubled(first, j))
    decreases j
  {
    if i < j {
      DoubledGrows(first, i, j - 1);
    }
  }

  /** The last size before the limit is the one at which doubling stops, and no block is larger. */
  lemma {:induction false} DoublingStops(first: nat, k: nat, len: nat, limit: nat)
    requires Grown(first, len) && len <= limit && Doubled(first, k) <= limit < 2 * Doubled(first, k)
    ensures len <= Doubled(first, k) && (limit < 2 * len ==> len == Doubled(first, k))
  {
    var i: nat :| len == Doubled(first, i);
    if i <= k {
      DoubledGrows(first, i, k);
    } else {
      DoubledGrows(first, k, i);
    }
  }
}
