/** The proof-of-history hash chain and the sequential loop that builds it.

    The digest function (SHA-256 rendered as lower-case hex text) is a
    parameter `h`: the model knows only that it is a total, deterministic
    function from text to text. Nothing here assumes it is injective.
 */
module ChainGenerator {

  /** A digest function from input text to the text of its digest. */
  type Hash = string -> string

  /** The fixed seed the chain grows from (spelled as the program spells it). */
  const GenesisSeed: string := "GENISIS_STRING"

  /** The text hashed to obtain entry `j`: the seed for the first entry,
      otherwise the previous entry. */
  function Pred(seed: string, c: seq<string>, j: nat): string
    requires j <= |c|
  {
    if j == 0 then seed else c[j - 1]
  }

  /** Entry `j` of `c` is the digest of its predecessor text. */
  predicate Link(h: Hash, seed: string, c: seq<string>, j: nat)
    requires j < |c|
  {
    c[j] == h(Pred(seed, c, j))
  }

  /** The chain invariant: every entry is linked to its predecessor. */
  predicate IsChain(h: Hash, seed: string, c: seq<string>)
  {
    forall j :: 0 <= j < |c| ==> Link(h, seed, c, j)
  }

  /** The reference chain of `n` entries, grown one digest at a time. */
  function Chain(h: Hash, seed: string, n: nat): (c: seq<string>)
    ensures |c| == n
    decreases n
  {
    if n == 0 then []
    else
      var prefix := Chain(h, seed, n - 1);
      prefix + [h(Pred(seed, prefix, n - 1))]
  }

  /** Growing the chain keeps the entries already there. */
  lemma {:induction false} ChainPrefix(h: Hash, seed: string, m: nat, n: nat)
    requires m <= n
    ensures Chain(h, seed, m) == Chain(h, seed, n)[..m]
    decreases n
  {
    if m < n {
      ChainPrefix(h, seed, m, n - 1);
      assert Chain(h, seed, n)[..n - 1] == Chain(h, seed, n - 1);
    }
  }

  /** The reference chain satisfies the chain invariant. */
  lemma {:induction false} ChainIsValid(h: Hash, seed: string, n: nat)
    ensures IsChain(h, seed, Chain(h, seed, n))
    decreases n
  {
    if n > 0 {
      ChainIsValid(h, seed, n - 1);
      var prefix, c := Chain(h, seed, n - 1), Chain(h, seed, n);
      forall j | 0 <= j < n
        ensures Link(h, seed, c, j)
      {
        if j < n - 1 {
          assert Link(h, seed, prefix, j);
          assert c[j] == prefix[j] && Pred(seed, c, j) == Pred(seed, prefix, j);
        }
      }
    }
  }

  /** Determinism: the chain invariant fixes every entry, so a sequence
      that satisfies it is exactly the reference chain of its length. */
  lemma {:induction false} ChainUnique(h: Hash, seed: string, c: seq<string>)
    requires IsChain(h, seed, c)
    ensures c == Chain(h, seed, |c|)
    decreases |c|
  {
    if |c| > 0 {
      var prefix := c[..|c| - 1];
      forall j | 0 <= j < |prefix|
        ensures Link(h, seed, prefix, j)
      {
        assert Link(h, seed, c, j);
        assert Pred(seed, c, j) == Pred(seed, prefix, j);
      }
      ChainUnique(h, seed, prefix);
      assert Link(h, seed, c, |c| - 1);
      assert c == prefix + [c[|c| - 1]];
    }
  }

  /** The chain invariant holds of `c` exactly when `c` is the reference
      chain of its length. */
  lemma ChainCharacterised(h: Hash, seed: string, c: seq<string>)
    ensures IsChain(h, seed, c) <==> c == Chain(h, seed, |c|)
  {
    if IsChain(h, seed, c) {
      ChainUnique(h, seed, c);
    } else {
      ChainIsValid(h, seed, |c|);
    }
  }

  /** The generation loop: push the digest of the seed, then for each
      `i` in `1..n` push the digest of entry `i - 1`. */
  method Generate(h: Hash, seed: string, n: nat) returns (hashes: seq<string>)
    requires n >= 1
    ensures |hashes| == n
    ensures hashes[0] == h(seed)
    ensures forall i :: 1 <= i < n ==> hashes[i] == h(hashes[i - 1])
    ensures hashes == Chain(h, seed, n)
  {
    hashes := [h(seed)];
    for i := 1 to n
      invariant |hashes| == i
      invariant hashes[0] == h(seed)
      invariant forall k :: 1 <= k < i ==> hashes[k] == h(hashes[k - 1])
      invariant hashes == Chain(h, seed, i)
    {
      hashes := hashes + [h(hashes[i - 1])];
    }
  }
}
