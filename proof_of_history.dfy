/** The program as a whole: build the chain from the fixed seed, then hand
    the finished chain to the verification workers.
 */
module ProofOfHistory {
  import opened ChainGenerator
  import opened Partition
  import opened ChainVerifier

  /** The sizes the program is built with: 1,000,000 entries checked by
      10 workers of 100,000 indices each. */
  const Workers: nat := 10
  const RangeSize: nat := 100_000
  const ChainLength: nat := 1_000_000

  /** Generate `k * s` entries from the seed and verify them with `k`
      workers of `s` indices each. A freshly generated chain always passes:
      every worker reports no mismatch. */
  method ProveAndVerify(h: Hash, k: nat, s: nat)
    returns (chain: seq<string>, outcomes: seq<Outcome>, verified: bool)
    requires k >= 1 && s >= 1
    ensures chain == Chain(h, GenesisSeed, k * s) && |chain| == k * s
    ensures |outcomes| == k && forall i :: 0 <= i < k ==> outcomes[i] == AllOk
    ensures verified
  {
    MulMonotone(1, k, s);
    chain := Generate(h, GenesisSeed, k * s);
    ChainIsValid(h, GenesisSeed, k * s);
    outcomes, verified := VerifyAll(h, GenesisSeed, chain, k, s);
  }

  /** The program with its built-in sizes. */
  method RunAsShipped(h: Hash) returns (chain: seq<string>, verified: bool)
    ensures chain == Chain(h, GenesisSeed, ChainLength) && |chain| == ChainLength
    ensures IsChain(h, GenesisSeed, chain)
    ensures chain[0] == h(GenesisSeed)
    ensures verified
  {
    assert Workers * RangeSize == ChainLength;
    var outcomes;
    chain, outcomes, verified := ProveAndVerify(h, Workers, RangeSize);
    ChainIsValid(h, GenesisSeed, ChainLength);
    assert Link(h, GenesisSeed, chain, 0);
  }
}
