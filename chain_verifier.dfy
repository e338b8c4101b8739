/** Verification of a finished chain by `k` workers, each re-deriving the
    links of its own range in increasing index order and stopping at the
    first mismatch.

    The chain is a sequence value: a worker receives it, reads it and has
    nothing through which it could change it, which is what sharing the
    finished chain read-only between the workers amounts to. The workers
    are independent, so they run here one after another.
 */
module ChainVerifier {
  import opened ChainGenerator
  import opened Partition

  /** What one worker reports: every index of its range matched, or the
      first index whose stored digest differs from the recomputed one. */
  datatype Outcome = AllOk | Mismatch(index: nat, stored: string, recomputed: string)

  /** `o` is a correct report for the range `[lo, hi)` of `c`: all links in
      the range hold, or `o` names the first broken link with the digest
      stored there and the digest recomputed from its predecessor. */
  predicate Reports(h: Hash, seed: string, c: seq<string>, lo: nat, hi: nat, o: Outcome)
    requires lo <= hi <= |c|
  {
    match o
    case AllOk =>
      forall j :: lo <= j < hi ==> Link(h, seed, c, j)
    case Mismatch(x, stored, recomputed) =>
      lo <= x < hi && stored == c[x] && recomputed == h(Pred(seed, c, x)) &&
      stored != recomputed &&
      forall j :: lo <= j < x ==> Link(h, seed, c, j)
  }

  /** The outcome of checking `[lo, hi)` from `lo` upwards. */
  function FirstMismatch(h: Hash, seed: string, c: seq<string>, lo: nat, hi: nat): (o: Outcome)
    requires lo <= hi <= |c|
    ensures Reports(h, seed, c, lo, hi, o)
    decreases hi - lo
  {
    if lo == hi then AllOk
    else if c[lo] != h(Pred(seed, c, lo)) then Mismatch(lo, c[lo], h(Pred(seed, c, lo)))
    else FirstMismatch(h, seed, c, lo + 1, hi)
  }

  /** The outcome worker `i` reports when every range holds `s` indices. */
  function WorkerOutcome(h: Hash, seed: string, c: seq<string>, i: nat, s: nat): Outcome
    requires WorkerRange(i, s).end <= |c|
  {
    FirstMismatch(h, seed, c, WorkerRange(i, s).start, WorkerRange(i, s).end)
  }

  /** A range passes exactly when every link in it holds. */
  lemma {:induction false} PassesIffLinks(h: Hash, seed: string, c: seq<string>, lo: nat, hi: nat)
    requires lo <= hi <= |c|
    ensures FirstMismatch(h, seed, c, lo, hi) == AllOk <==> forall j :: lo <= j < hi ==> Link(h, seed, c, j)
    decreases hi - lo
  {
    if lo < hi && forall j :: lo <= j < hi ==> Link(h, seed, c, j) {
      assert Link(h, seed, c, lo);
      PassesIffLinks(h, seed, c, lo + 1, hi);
    }
  }

  /** A correct report for a range is the one the worker's loop produces,
      so there is only one. */
  lemma {:induction false} ReportsDetermined(h: Hash, seed: string, c: seq<string>, lo: nat, hi: nat, o: Outcome)
    requires lo <= hi <= |c|
    requires Reports(h, seed, c, lo, hi, o)
    ensures o == FirstMismatch(h, seed, c, lo, hi)
    decreases hi - lo
  {
    if lo < hi {
      if Link(h, seed, c, lo) {
        ReportsDetermined(h, seed, c, lo + 1, hi, o);
      } else {
        assert o.Mismatch? ==> o.index == lo;
      }
    }
  }

  /** One worker's loop: for each index of `[lo, hi)` in increasing order,
      hash the predecessor text and compare with the stored digest; stop at
      the first mismatch. */
  method CheckRange(h: Hash, seed: string, c: seq<string>, lo: nat, hi: nat) returns (o: Outcome)
    requires lo <= hi <= |c|
    ensures o == FirstMismatch(h, seed, c, lo, hi)
    ensures o.Mismatch? ==> lo <= o.index < hi && o.stored != o.recomputed
    ensures o == AllOk <==> forall j :: lo <= j < hi ==> Link(h, seed, c, j)
  {
    for j := lo to hi
      invariant FirstMismatch(h, seed, c, lo, hi) == FirstMismatch(h, seed, c, j, hi)
    {
      var proofText := if j == 0 then seed else c[j - 1];
      var output := h(proofText);
      var proof := c[j];
      if proof != output {
        assert !Link(h, seed, c, j);
        return Mismatch(j, proof, output);
      }
    }
    return AllOk;
  }

  /** On a valid chain no range reports a mismatch. */
  lemma ValidChainPasses(h: Hash, seed: string, c: seq<string>, lo: nat, hi: nat)
    requires lo <= hi <= |c|
    requires IsChain(h, seed, c)
    ensures FirstMismatch(h, seed, c, lo, hi) == AllOk
  {
    PassesIffLinks(h, seed, c, lo, hi);
  }

  /** All `k` workers report no mismatch exactly when the whole chain
      satisfies the chain invariant. */
  lemma AllWorkersOkIffChain(h: Hash, seed: string, c: seq<string>, k: nat, s: nat)
    requires |c| == k * s
    ensures forall i :: 0 <= i < k ==> WorkerRange(i, s).end <= |c|
    ensures (forall i :: 0 <= i < k ==> WorkerOutcome(h, seed, c, i, s) == AllOk) <==> IsChain(h, seed, c)
  {
    forall i | 0 <= i < k
      ensures WorkerRange(i, s).end <= |c|
    {
      RangeWithin(i, k, s);
    }
    if forall i :: 0 <= i < k ==> WorkerOutcome(h, seed, c, i, s) == AllOk {
      forall j | 0 <= j < |c|
        ensures Link(h, seed, c, j)
      {
        var w := Owner(j, s);
        OwnerBelow(j, k, s);
        assert WorkerOutcome(h, seed, c, w, s) == AllOk;
      }
    }
    if IsChain(h, seed, c) {
      forall i | 0 <= i < k
        ensures WorkerOutcome(h, seed, c, i, s) == AllOk
      {
        ValidChainPasses(h, seed, c, WorkerRange(i, s).start, WorkerRange(i, s).end);
      }
    }
  }

  /** Spawning the workers and joining them: run every worker's range check
      and combine the outcomes. The chain is verified only if no worker
      reported a mismatch; every mismatch stays in `outcomes`. */
  method VerifyAll(h: Hash, seed: string, c: seq<string>, k: nat, s: nat)
    returns (outcomes: seq<Outcome>, verified: bool)
    requires |c| == k * s
    ensures |outcomes| == k
    ensures forall i :: 0 <= i < k ==>
      WorkerRange(i, s).end <= |c| && outcomes[i] == WorkerOutcome(h, seed, c, i, s)
    ensures verified <==> forall i :: 0 <= i < k ==> outcomes[i] == AllOk
    ensures verified <==> IsChain(h, seed, c)
  {
    AllWorkersOkIffChain(h, seed, c, k, s);
    outcomes := [];
    for i := 0 to k
      invariant |outcomes| == i
      invariant forall w :: 0 <= w < i ==> outcomes[w] == WorkerOutcome(h, seed, c, w, s)
    {
      var r := WorkerRange(i, s);
      var o := CheckRange(h, seed, c, r.start, r.end);
      outcomes := outcomes + [o];
    }
    verified := true;
    for i := 0 to k
      invariant verified <==> forall w :: 0 <= w < i ==> outcomes[w] == AllOk
    {
      if outcomes[i].Mismatch? {
        verified := false;
      }
    }
  }

  /** Soundness: on a chain the generator produced, with `n == k * s`,
      no worker reports a mismatch. */
  lemma GeneratedChainPasses(h: Hash, seed: string, k: nat, s: nat, i: nat)
    requires i < k
    ensures WorkerRange(i, s).end <= k * s
    ensures WorkerOutcome(h, seed, Chain(h, seed, k * s), i, s) == AllOk
  {
    RangeWithin(i, k, s);
    ChainIsValid(h, seed, k * s);
    ValidChainPasses(h, seed, Chain(h, seed, k * s), WorkerRange(i, s).start, WorkerRange(i, s).end);
  }

  /** Replacing entry `x` of a valid chain can break only the links at `x`
      and at `x + 1`. */
  lemma CorruptionIsLocal(h: Hash, seed: string, c: seq<string>, x: nat, v: string, j: nat)
    requires IsChain(h, seed, c) && x < |c|
    requires j < |c| && j != x && j != x + 1
    ensures Link(h, seed, c[x := v], j)
  {
    assert Link(h, seed, c, j);
    assert Pred(seed, c[x := v], j) == Pred(seed, c, j);
  }

  /** Completeness for a single corruption: in a valid chain of `k * s`
      entries, replace entry `x` by a different value. The worker whose
      range holds `x` then reports a mismatch at exactly `x`, with the
      replacement as the stored digest and the original entry as the
      recomputed one. */
  lemma SingleCorruptionDetected(h: Hash, seed: string, c: seq<string>, k: nat, s: nat, x: nat, v: string)
    requires IsChain(h, seed, c) && |c| == k * s
    requires s >= 1 && x < |c| && v != c[x]
    ensures Owner(x, s) < k && WorkerRange(Owner(x, s), s).end <= |c|
    ensures WorkerOutcome(h, seed, c[x := v], Owner(x, s), s) == Mismatch(x, v, c[x])
  {
    var bad := c[x := v];
    var w := Owner(x, s);
    OwnerBelow(x, k, s);
    RangeWithin(w, k, s);
    var r := WorkerRange(w, s);
    forall j | r.start <= j < x
      ensures Link(h, seed, bad, j)
    {
      CorruptionIsLocal(h, seed, c, x, v, j);
    }
    assert Link(h, seed, c, x);
    assert Pred(seed, bad, x) == Pred(seed, c, x);
    ReportsDetermined(h, seed, bad, r.start, r.end, Mismatch(x, v, c[x]));
  }

  /** In the same situation, a worker whose range holds neither the
      corrupted index nor the one after it reports no mismatch. */
  lemma CorruptionElsewherePasses(h: Hash, seed: string, c: seq<string>, k: nat, s: nat, x: nat, v: string, i: nat)
    requires IsChain(h, seed, c) && |c| == k * s
    requires x < |c| && i < k
    requires !Contains(WorkerRange(i, s), x) && !Contains(WorkerRange(i, s), x + 1)
    ensures WorkerRange(i, s).end <= |c|
    ensures WorkerOutcome(h, seed, c[x := v], i, s) == AllOk
  {
    var bad := c[x := v];
    RangeWithin(i, k, s);
    var r := WorkerRange(i, s);
    forall j | r.start <= j < r.end
      ensures Link(h, seed, bad, j)
    {
      CorruptionIsLocal(h, seed, c, x, v, j);
    }
    PassesIffLinks(h, seed, bad, r.start, r.end);
  }

  /** Completeness of the whole verification: running every worker on a
      valid chain with entry `x` replaced by a different value does not
      verify, and the worker owning `x` reports the mismatch at `x`. */
  method VerifyCorrupted(h: Hash, seed: string, c: seq<string>, k: nat, s: nat, x: nat, v: string)
    returns (outcomes: seq<Outcome>, verified: bool)
    requires IsChain(h, seed, c) && |c| == k * s
    requires s >= 1 && x < |c| && v != c[x]
    ensures |outcomes| == k && Owner(x, s) < k
    ensures outcomes[Owner(x, s)] == Mismatch(x, v, c[x])
    ensures !verified
  {
    SingleCorruptionDetected(h, seed, c, k, s, x, v);
    outcomes, verified := VerifyAll(h, seed, c[x := v], k, s);
  }
}
