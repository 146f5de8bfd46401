# Sieve of Eratosthenes, sequential and per-worker

A Dafny model of the two sieves in this repository.

- `seq.cpp`'s `sieve(N)` is the reference. It keeps one array of `N` flags with entries 0 and 1 cleared. It runs rounds while `k * k <= N`. Each round clears `k*k, k*k+k, ...` below `N`, then moves `k` to the first flagged index after `k` (or `N`). `main` counts the true flags.
- `par.cpp`'s `sieve(N, start, stop, id)` runs in each of `P` MPI processes ("workers").
  - `main` gives worker `id` the inclusive range `[(N/P)*id, (N/P)*(id+1)-1]` and stretches the last range to `N-1`.
  - Each worker keeps its flags in a local array indexed by `i - start`.
  - In each round, every worker clears the multiples of `k` from `max(k, ceil(start/k))*k` through `stop`.
  - Worker 0 then elects the next `k` by scanning its own array from local index `k + 1`. `MPI_Bcast` hands that `k` to every worker.
  - At the end the local true-counts are summed with `MPI_Reduce`.

The model runs the `P` workers as a deterministic simulation in lockstep. One round is: every worker marks, worker 0 elects, and every worker's `k` is set to the elected value.

Files:
- `arith.dfy`: helper facts about divisibility and products.
- `sieving.dfy`: the specification shared by both sieves. It holds primality, the "survivor" flags after the rounds for every candidate below `k`, one marking round (`Struck`), the `std::find` scan, and counting.
- `seq_sieve.dfy`: `seq.cpp`.
- `partition.dfy`: the range split of `par.cpp`'s `main`.
- `par_sieve.dfy`: `par.cpp`'s sieve, the workers and the reduction.

Both sieves share one invariant. At the start of the round for candidate `k`, the entry for global number `i` is `Survivor(i, k)`: `i >= 2` and no `d` in `[2, k)` with `d*d <= i` divides `i`. Below `k*k` this is exactly primality. Marking turns `Survivor(., k)` into `Survivor(., k+1)`. Skipping cleared candidates changes nothing. The loop ends when `k*k > N`, and then every entry is exactly primality.

Ranges are inclusive: `stop` is the last index a worker owns. The arrays cover `[0, N)`, so `N` itself is never counted; for `N = 2` the count is 0.

## Model

| member | source | states |
|---|---|---|
| Sieving.FindNextTrue | seq.cpp:23-24 | the `std::find` scan from `from`. It returns the first true index at or after `from`, or the length if there is none. Every entry it skips is false. |
| Sieving.CountTrue | seq.cpp:45 | the true-count never exceeds the array length |
| Sieving.CountTrueIsCardinality | seq.cpp:45 | the true-count equals the number of positions holding true |
| Sieving.CountTrueAppend | par.cpp:70-72 | the true-counts of two adjacent pieces add up to the count of the whole |
| Sieving.CountPrimeFlags | seq.cpp:45 | counting the correct flags of `[0, n)` gives the number of primes below `n` |
| Sieving.SurvivorBelowSquare | seq.cpp:14-27 | at the start of the round for `k`, an entry below `k*k` is flagged iff its index is prime (both directions) |
| Sieving.PrimeSurvives | seq.cpp:18-21 | no round ever clears a prime |
| Sieving.StrikeStep | seq.cpp:18-21 | the round for `k` clears exactly the multiples of `k` from `k*k` on, and only those |
| Sieving.SkipComposites | seq.cpp:23-26 | candidates that the scan skips (already cleared) would clear nothing new |
| Sieving.NextCandidate | seq.cpp:23-26 | the next flagged number after `k`, read over the whole domain, leaves the flags holding the rounds below it, and it is prime |
| Sieving.ElectedCandidate | seq.cpp:23-26 | the same, for the first flagged entry after `k` in one array of flags of `[0, n)` |
| Sieving.StruckSurvivors | seq.cpp:18-21 | a marking round on flags that hold the rounds below `k` yields the flags of the rounds below `k + 1` |
| Sieving.Struck | seq.cpp:18-21 | one marking round on a window of flags keeps its length, only turns entries from true to false, and leaves every number below `k*k` as it was |
| Sieving.StruckIdempotent | seq.cpp:18-21 | marking twice with the same `k` equals marking once |
| SeqSieve.MarkMultiples | seq.cpp:18-21 | the marking loop leaves the array equal to `Struck` of its old contents. It clears exactly `k*k, k*k+k, ...` below `N` and leaves every other entry unchanged. |
| SeqSieve.Sieve | seq.cpp:8-30 | for `N >= 2` the result is a new array of length `N` and entry `i` is true iff `i` is prime. Its loop invariants keep `2 <= k <= N` and make each round's `k` prime. `k` strictly increases, which is the termination measure. |
| SeqSieve.CountPrimes | seq.cpp:42-45 | the true-count of the sieve's result is the number of primes below `N` |
| Partition.Split | par.cpp:61-66 | every worker's range `[start, stop]` has `start <= stop + 1` (never a negative size) |
| Partition.SplitEnds | par.cpp:61-66 | worker 0 starts at 0 and the last worker stops at `N - 1` |
| Partition.SplitContiguous | par.cpp:61-66 | each range ends just before the next one starts |
| Partition.SplitWithinDomain | par.cpp:61-66 | every range lies inside `[0, N - 1]` |
| Partition.SplitSize | par.cpp:61-66 | every range has at least `N / P` entries. Worker 0's range has exactly `N / P`. |
| Partition.Owner | par.cpp:61-66 | every number in `[0, N)` lies in some worker's range (coverage) |
| Partition.OwnerUnique | par.cpp:61-66 | a number lies in only one worker's range (pairwise disjoint) |
| ParSieve.CeilingDivision | par.cpp:27 | `(start + k - 1) / k` is the ceiling of `start / k`: the least `c` with `c * k >= start` |
| ParSieve.FirstMultiple | par.cpp:27 | the first number a worker clears, `max(k, (start+k-1)/k) * k`, is a multiple of `k`, at least `start` and at least `k*k` |
| ParSieve.FirstMultipleIsLeast | par.cpp:27 | `max(k, (start+k-1)/k) * k` is the least multiple of `k` that is both `>= start` and `>= k*k` |
| ParSieve.InitLocal | par.cpp:11-16 | the local array has length `stop - start + 1`. When `start == 0`, entries 0 and 1 are false. Every other entry is true. |
| ParSieve.MarkLocal | par.cpp:27-31 | the worker's marking loop equals `Struck` on its window. Exactly the multiples of `k` in `[max(k*k, start), stop]` are cleared, at local index `i - start`. Every other entry is unchanged. Every write lies in `[0, stop - start]`. |
| ParSieve.InitWorkers | par.cpp:61-68 | one distinct local array per worker, sized by the split, holding the flags before the first round |
| ParSieve.MarkAll | par.cpp:23-31 | the marking phase: each worker's array becomes `Struck` of its own old contents with its own `k` |
| ParSieve.MarkedFlags | par.cpp:27-31 | after the marking phase every worker's flags hold the rounds below `k + 1` |
| ParSieve.Round | par.cpp:20-37 | one round needs `k + 1 <= N / P` so that worker 0's scan starts inside its array. The elected `k` is worker 0's first flagged entry after the old `k`, or its length when there is none. It is prime when below that length. Every worker's flags then hold the rounds below it. |
| ParSieve.FinalFlags | par.cpp:20 | once `k*k > N`, every worker's array is exactly the primality of its range |
| ParSieve.Run | par.cpp:61-72 | the workers as written, for `N / P >= 2` and `(N/P)^2 > N`. Each worker ends with its own new array holding exactly the primality of its range. The summed count is the number of primes below `N`. A loop invariant keeps every worker's `k` equal after each broadcast. |
| ParSieve.Sum | par.cpp:72 | the `MPI_SUM` reduction of the local counts: no local count exceeds the total |
| ParSieve.SumOfCounts | par.cpp:70-72 | for any flags whatever, the sum of the local true-counts is the true-count of all the pieces laid end to end |
| ParSieve.ReduceCounts | par.cpp:70-72 | summing the workers' local true-counts gives the number of primes below `N` |
| ParSieve.SumOfLocalCounts | par.cpp:70-72 | the sum of the correct local counts over the split is the number of primes below `N` |
| ParSieve.ElectionOverrunWitness | par.cpp:33-37 | for `N = 30`, `P = 10` the as-written rounds elect `k = 3`. That `k` equals worker 0's array length and has `3*3 <= 30`, so the next election starts past the array. |
| ParSieve.ElectGlobal | par.cpp:33-39 | corrected election: the minimum over all workers of their first flag after `k` is the first flagged number after `k` in the whole domain, or `N` |
| ParSieve.RunGlobalElection | par.cpp:18-40 | with the corrected election, every split with `N / P >= 2` ends with exact primality in every worker's own new array and the number of primes below `N` as the sum |
| ParSieve.GlobalFlags | par.cpp:30 | reading global number `i` at local index `i - start` of its owner gives the worker's flag for `i` |
| ParSieve.SingleWorkerMatchesSequential | par.cpp:61-68 | with `P = 1` the per-worker sieve returns exactly the array that `seq.cpp`'s `sieve(N)` returns |
| ParSieve.CountsAgree | par.cpp:70-72 | the per-worker count equals the sequential count for every `P` with `N / P >= 2` (corrected election) |

## Findings

| source | as written | input that shows it | evidently intended | confidence | as-written member | corrected member |
|---|---|---|---|---|---|---|
| par.cpp:33-37 | Worker 0 elects the next `k` with `std::find(primeVec.begin() + k + 1, ...)` on its own array only. Once the elected `k` reaches its length `N/P` while `(N/P)^2 <= N`, the next round's scan starts past the end of the vector. | `N = 30`, `P = 10`: worker 0 owns `[0, 2]` and elects `k = 3` after the round for 2. Since `9 <= 30`, the round for 3 runs and scans from index 4 of a 3-entry vector. The hard-coded `N = 10000` with `P = 100` fails the same way. | elect the next candidate over the whole domain (a minimum over every worker's first flag after `k`), so that the result is correct for every split | high (not executed) | ParSieve.ElectionOverrunWitness | ParSieve.RunGlobalElection |

`ParSieve.Run` models the code as written. Its requirement `(N/P)^2 > N` is exactly the condition under which every election starts inside worker 0's array:
- Each round's `k` has `k*k <= N < (N/P)^2`, so `k < N/P`.
- Without that condition, the rounds go through every prime below `N/P` and then reach `k = N/P`, as the witness shows.

## Left out

- MPI start-up and teardown, `MPI_Wtime` timing, the `int`-truncated times and all `std::cout` reporting (par.cpp:55-59, 74-83; seq.cpp:35-49): these are I/O and runtime calls.
- `MPI_Bcast` and `MPI_Reduce` as real messages: the broadcast is modelled as giving every worker the elected `k`, and the reduction as `Sum` of the local counts. The broadcast passes an `int` as `MPI_LONG`, a type mismatch. The model assumes the intended semantics, where every worker receives the same `k`.
- OpenMP `parallel for` and `critical` (par.cpp:23, 29): the marking loop is sequential. Every write stores `false`, so its order does not matter.
- Processes running concurrently: the workers run one after another within a round.
- Floating-point `pow(k, 2)` is modelled as the integer `k * k`.
- 32-bit `int`: integers are unbounded. Overflow of `k * k`, `i += k` or `stop - start + 1` for huge `N` is not modelled.
- The hard-coded `N` (seq.cpp:37, par.cpp:50): `N` and `P` are parameters.
- Undefined behaviour is excluded by preconditions rather than modelled:
  - `seq.cpp` with `N < 2` writes past a short vector, so `SeqSieve.Sieve` requires `N >= 2`.
  - A worker with `start == 0` and `stop < 1` does the same, so the split requires `N / P >= 2`.
  - Worker 0's election past its array is excluded by `ParSieve.Round`'s requirement.
