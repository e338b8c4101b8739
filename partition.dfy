/** How the chain's indices are split among the verification workers.

    Worker `i` of `k` checks the half-open range `[i * s, i * s + s)`; with
    `n == k * s` these ranges are contiguous, pairwise disjoint and together
    cover `[0, n)`, so every index is checked by exactly one worker.
 */
module Partition {

  /** A half-open index interval `[start, end)`. */
  datatype Range = Range(start: nat, end: nat)

  predicate Contains(r: Range, j: nat)
  {
    r.start <= j < r.end
  }

  /** The range assigned to worker `i` when every range holds `s` indices. */
  function WorkerRange(i: nat, s: nat): Range
  {
    Range(i * s, i * s + s)
  }

  /** Multiplication by a natural number is monotone. */
  lemma MulMonotone(a: nat, b: nat, s: nat)
    requires a <= b
    ensures a * s <= b * s
  {
  }

  /** Each worker's range has `s` indices, starts where the previous one
      ends, and the first starts at 0. */
  lemma RangesContiguous(i: nat, s: nat)
    ensures WorkerRange(i, s).end - WorkerRange(i, s).start == s
    ensures WorkerRange(0, s).start == 0
    ensures WorkerRange(i + 1, s).start == WorkerRange(i, s).end
  {
  }

  /** The range of every one of the `k` workers lies inside `[0, k * s)`. */
  lemma RangeWithin(i: nat, k: nat, s: nat)
    requires i < k
    ensures WorkerRange(i, s).end <= k * s
  {
    MulMonotone(i + 1, k, s);
    assert (i + 1) * s == i * s + s;
  }

  /** The worker whose range holds index `j`. */
  function Owner(j: nat, s: nat): (w: nat)
    requires s >= 1
    ensures Contains(WorkerRange(w, s), j)
  {
    j / s
  }

  /** Disjointness: an index lies in the range of one worker only. */
  lemma OwnerUnique(i: nat, j: nat, s: nat)
    requires s >= 1
    requires Contains(WorkerRange(i, s), j)
    ensures i == Owner(j, s)
  {
    var w := Owner(j, s);
    if i < w {
      MulMonotone(i + 1, w, s);
      assert false;
    } else if w < i {
      MulMonotone(w + 1, i, s);
      assert false;
    }
  }

  /** Two different workers never share an index. */
  lemma RangesDisjoint(i1: nat, i2: nat, s: nat, j: nat)
    requires s >= 1 && i1 != i2
    ensures !(Contains(WorkerRange(i1, s), j) && Contains(WorkerRange(i2, s), j))
  {
    if Contains(WorkerRange(i1, s), j) && Contains(WorkerRange(i2, s), j) {
      OwnerUnique(i1, j, s);
      OwnerUnique(i2, j, s);
    }
  }

  /** An index below `k * s` belongs to one of the first `k` workers. */
  lemma OwnerBelow(j: nat, k: nat, s: nat)
    requires s >= 1 && j < k * s
    ensures Owner(j, s) < k
  {
    var w := Owner(j, s);
    if k <= w {
      MulMonotone(k, w, s);
      assert false;
    }
  }

  /** Coverage: the union of the `k` workers' ranges is exactly `[0, k * s)`. */
  lemma Coverage(k: nat, s: nat, j: nat)
    requires s >= 1
    ensures j < k * s <==> exists i :: 0 <= i < k && Contains(WorkerRange(i, s), j)
  {
    if j < k * s {
      OwnerBelow(j, k, s);
      assert Contains(WorkerRange(Owner(j, s), s), j);
    } else {
      forall i | 0 <= i < k
        ensures !Contains(WorkerRange(i, s), j)
      {
        RangeWithin(i, k, s);
      }
    }
  }
}
