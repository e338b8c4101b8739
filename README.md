# Proof-of-history hash chain, modelled in Dafny

The program builds a proof-of-history hash chain. Entry 0 is the SHA-256
digest of the seed `"GENISIS_STRING"`, and every later entry is the digest of
the previous entry's hex text. The program then checks the finished chain
with 10 worker threads. Each worker owns a contiguous range of 100,000
indices. For every index `j` of its range, in increasing order, it rehashes
the predecessor text: the seed when `j == 0`, otherwise entry `j - 1`. It
compares the result with the stored entry and stops at the first mismatch.

The model keeps this structure in four modules:

- `ChainGenerator` (`chain_generator.dfy`) holds the digest function, the
  chain invariant and the generation loop. The digest function is a
  parameter `h: string -> string`. It is total and deterministic, and
  nothing assumes it is injective. Digests are their hex text, so the seed
  and every entry have the same type `string`. `Chain` is the reference
  chain, and `Generate` is the loop that builds it by appending.
- `Partition` (`partition.dfy`) holds the worker ranges `[i * s, i * s + s)`.
  It proves that they are contiguous, pairwise disjoint and cover
  `[0, k * s)`, and that `Owner(j, s) = j / s` names the one worker that
  checks index `j`.
- `ChainVerifier` (`chain_verifier.dfy`) holds one worker's loop
  (`CheckRange`) and its reference outcome (`FirstMismatch`). It also holds
  a declarative description of a correct report (`Reports`), the
  spawn-and-join step (`VerifyAll`), and the soundness and completeness
  lemmas.
- `ProofOfHistory` (`proof_of_history.dfy`) composes the two phases as the
  program's `main` does.

The chain length, the worker count and the range size are parameters `n`,
`k` and `s` with `n == k * s`. The program uses 1,000,000 = 10 × 100,000.
The chain handed to the workers is a sequence value. A worker can read it
but has nothing through which to change it, and no verification method has
a `modifies` clause. This is how the model shows that verification is
read-only.

The workers are independent and only read the chain, so `VerifyAll` runs
their checks one after another. In the source, a worker that finds a
mismatch panics (`src/main.rs:48`). Here it returns
`Mismatch(index, stored, recomputed)`.

A mismatch does not abort the program. The code discards every join result
(`let _ = child.join()`, `src/main.rs:56`), so under Rust's default
`panic = "unwind"` strategy a worker's panic ends only that worker, and
`main` still prints its summary.
`VerifyAll` makes the aggregate explicit: it returns every worker's outcome
and a `verified` flag that is true exactly when no worker reported a
mismatch. `RunAsShipped`, like `main`, does nothing further with that flag.

## Model

| member | source | states |
|---|---|---|
| `ChainGenerator.Chain` | src/main.rs:12-20 | the reference chain of `n` entries has exactly `n` entries |
| `ChainGenerator.Generate` | src/main.rs:11-22 | the generation loop returns exactly `n` entries; the first is the digest of the seed; every later entry is the digest of the one before it; the result is the reference chain |
| `ChainGenerator.ChainPrefix` | src/main.rs:17-20 | growing the chain never changes an entry already pushed: the chain of `m` entries is the first `m` entries of any longer one |
| `ChainGenerator.ChainIsValid` | src/main.rs:13-20 | the reference chain satisfies the chain invariant `chain[0] == H(seed)` and `chain[i] == H(chain[i-1])` |
| `ChainGenerator.ChainUnique` | src/main.rs:13-20 | determinism: any sequence satisfying the chain invariant for a seed is the reference chain of its length |
| `ChainGenerator.ChainCharacterised` | src/main.rs:13-20 | the chain invariant holds of a sequence if and only if it is the reference chain of its length |
| `Partition.RangesContiguous` | src/main.rs:30-33 | each worker's range holds `s` indices, the first starts at 0, and each starts where the previous one ends |
| `Partition.RangeWithin` | src/main.rs:30-33 | every one of the `k` workers' ranges ends at or before `k * s`, so no worker reads past the chain |
| `Partition.Owner` | src/main.rs:33 | index `j` lies in the range of worker `j / s` |
| `Partition.OwnerUnique` | src/main.rs:30-33 | a worker whose range holds `j` is worker `j / s`, so each index has one owner |
| `Partition.RangesDisjoint` | src/main.rs:30-33 | two different workers never share an index |
| `Partition.OwnerBelow` | src/main.rs:30-33 | every index below `k * s` is owned by one of the first `k` workers |
| `Partition.Coverage` | src/main.rs:30-33 | an index is below `k * s` if and only if some worker `i < k` has it in its range |
| `ChainVerifier.FirstMismatch` | src/main.rs:33-49 | the outcome of a range is a correct report: all links of the range hold, or it names a first broken link with the stored digest, the digest recomputed from its predecessor, and all earlier links in the range holding |
| `ChainVerifier.PassesIffLinks` | src/main.rs:33-49 | a range reports no mismatch if and only if every index in it matches the digest of its predecessor |
| `ChainVerifier.ReportsDetermined` | src/main.rs:33-49 | fail-fast: a correct report for a range is unique, so the reported index is the first mismatch in the range |
| `ChainVerifier.CheckRange` | src/main.rs:33-50 | one worker's loop: it walks the range in increasing order, hashes the seed at index 0 and the previous entry elsewhere, stops at the first mismatch, and returns the reference outcome; it reports no mismatch if and only if every link in the range holds |
| `ChainVerifier.ValidChainPasses` | src/main.rs:34-48 | on a chain satisfying the chain invariant, no range reports a mismatch |
| `ChainVerifier.AllWorkersOkIffChain` | src/main.rs:30-57 | all `k` workers report no mismatch if and only if the whole chain of `k * s` entries satisfies the chain invariant |
| `ChainVerifier.VerifyAll` | src/main.rs:26-57 | spawn and join: one outcome per worker, each the reference outcome of that worker's range; `verified` holds if and only if no worker reported a mismatch, and if and only if the chain satisfies the chain invariant |
| `ChainVerifier.GeneratedChainPasses` | src/main.rs:11-50 | soundness: on the chain the generator builds, no worker reports a mismatch, so the panic is unreachable |
| `ChainVerifier.CorruptionIsLocal` | src/main.rs:34-47 | replacing entry `x` of a valid chain breaks no link other than those at `x` and `x + 1` |
| `ChainVerifier.SingleCorruptionDetected` | src/main.rs:33-49 | completeness: after replacing entry `x` of a valid chain by a different value, the worker owning `x` reports a mismatch at exactly `x`, with the new value as stored and the original entry as recomputed |
| `ChainVerifier.VerifyCorrupted` | src/main.rs:26-57 | completeness of the whole verification: on a valid chain with entry `x` replaced by a different value, verification fails and the worker owning `x` reports the mismatch at `x` with the new value as stored and the original entry as recomputed |
| `ChainVerifier.CorruptionElsewherePasses` | src/main.rs:33-49 | after the same replacement, every worker whose range holds neither `x` nor `x + 1` reports no mismatch |
| `ProofOfHistory.ProveAndVerify` | src/main.rs:9-57 | generating `k * s` entries from the seed and verifying them with `k` workers yields the reference chain, every worker reports no mismatch, and the chain is verified |
| `ProofOfHistory.RunAsShipped` | src/main.rs:9-57 | with the built-in sizes, the chain is the reference chain of 1,000,000 entries grown from the seed (every entry the digest of its predecessor, the first the digest of the seed), and verification succeeds |

## Left out

- SHA-256 and the `crypto` crate are not modelled. The digest function is the parameter `h`, an uninterpreted total function from text to text. Rebuilding the hasher on every step (`src/main.rs:18`, `39`) has no effect on a pure function.
- Thread spawning, `Arc` sharing and `join` are not modelled as concurrency. The workers are independent and read-only, so they run one after another. A worker panic that the join would swallow becomes an explicit `Mismatch` outcome.
- Timing (`Instant`, `elapsed`) and every `println!` trace and summary line are left out. They are output only.
- The hex rendering of a digest is not modelled separately. A digest is its text, which is how the source uses `result_str()`.
- ChainGenerator.Generate: requires `n >= 1`. The source's loop `1..N` with one push before it would still produce one entry for `N = 0`. The source never uses such a length, and `n == k * s` with `k, s >= 1` always meets the requirement.
- Uneven division of the chain among the workers is not modelled. The source's range arithmetic assumes that the range size times the worker count equals the length, so the model requires `|c| == k * s`.
