/** The per-worker sieve of par.cpp, run as a deterministic simulation of P
    workers in lockstep. Worker id owns the global range Split(N, P, id) and
    keeps its flags in a local array indexed by (global index - start). A
    round is: every worker marks the multiples of its k in its own range,
    worker 0 elects the next k from its own array, and that k is given to
    every worker (the broadcast). At the end the local true-counts are summed
    (the reduction). */
module ParSieve {
  import opened Arith
  import opened Sieving
  import opened Partition
  import SeqSieve

  function Max(a: nat, b: nat): (m: nat)
  {
    if a >= b then a else b
  }

  // ---------------------------------------------------------------------
  // Where a worker's marking starts

  /** (start + k - 1) / k is the ceiling of start / k: the least c with c * k >= start. */
  lemma CeilingDivision(start: nat, k: nat)
    requires k > 0
    ensures ((start + k - 1) / k) * k >= start
    ensures ((start + k - 1) / k - 1) * k < start
  {
    var c := (start + k - 1) / k;
    assert start + k - 1 == c * k + (start + k - 1) % k;
  }

  /** The first number a worker with range start clears in the round for k:
      a multiple of k that is at least start and at least k * k. */
  function FirstMultiple(start: nat, k: nat): (m: nat)
    requires k > 0
    ensures Divides(k, m) && m >= start && m >= k * k
  {
    CeilingDivision(start, k);
    FactorBounds(k, (start + k - 1) / k, start);
    Max(k, (start + k - 1) / k) * k
  }

  /** FirstMultiple(start, k) is the least multiple of k that is at least
      start and at least k * k. */
  lemma FirstMultipleIsLeast(start: nat, k: nat, m: nat)
    requires k > 0
    ensures Divides(k, FirstMultiple(start, k))
    ensures FirstMultiple(start, k) >= start && FirstMultiple(start, k) >= k * k
    ensures Divides(k, m) && m >= start && m >= k * k ==> m >= FirstMultiple(start, k)
  {
    var c := (start + k - 1) / k;
    CeilingDivision(start, k);
    if Divides(k, m) && m >= start && m >= k * k {
      DividesQuotient(k, m);
      FactorMinimal(k, c, m / k, start);
    }
  }

  lemma FactorBounds(k: nat, c: nat, start: nat)
    requires k > 0 && c * k >= start
    ensures Divides(k, Max(k, c) * k)
    ensures Max(k, c) * k >= start && Max(k, c) * k >= k * k
  {
    MultipleDivides(Max(k, c), k);
    MulLeft(c, Max(k, c), k);
    MulLeft(k, Max(k, c), k);
  }

  lemma FactorMinimal(k: nat, c: nat, q: nat, start: nat)
    requires k > 0 && (c - 1) * k < start <= q * k && k * k <= q * k
    ensures Max(k, c) * k <= q * k
  {
    MulCancel(k - 1, q, k);
    MulCancel(c - 1, q, k);
    MulLeft(Max(k, c), q, k);
  }

  // ---------------------------------------------------------------------
  // One worker

  /** par.cpp:11-16: the local array of worker [start, stop], all true except
      entries 0 and 1 of the worker that owns the start of the domain. */
  method InitLocal(start: nat, stop: int) returns (primeVec: array<bool>)
    requires start <= stop + 1
    requires start == 0 ==> stop >= 1
    ensures fresh(primeVec)
    ensures primeVec.Length == stop - start + 1
    ensures forall j :: 0 <= j < primeVec.Length ==> primeVec[j] == !(start == 0 && j < 2)
  {
    primeVec := new bool[stop - start + 1](_ => true);
    if start == 0 {
      primeVec[0] := false;
      primeVec[1] := false;
    }
  }

  /** par.cpp:27-31: clears FirstMultiple(start, k), then every k-th number
      through stop, at local index i - start. The result is one marking round
      on the window [start, stop]: exactly the multiples of k in
      [max(k * k, start), stop] are cleared, nothing else changes. */
  method MarkLocal(primeVec: array<bool>, start: nat, stop: int, k: nat)
    requires k >= 2 && primeVec.Length == stop - start + 1
    modifies primeVec
    ensures primeVec[..] == Struck(old(primeVec[..]), start, k)
  {
    forall m: nat | Divides(k, m) && m >= start && m >= k * k
      ensures m >= FirstMultiple(start, k)
    {
      FirstMultipleIsLeast(start, k, m);
    }
    var i := FirstMultiple(start, k);
    while i <= stop
      invariant start <= i && k * k <= i && Divides(k, i)
      invariant forall j :: 0 <= j < primeVec.Length ==>
        primeVec[j] == (old(primeVec[j]) && !(k * k <= start + j < i && Divides(k, start + j)))
      decreases stop - i
    {
      primeVec[i - start] := false;
      forall m | i < m < i + k
        ensures !Divides(k, m)
      {
        NoMultipleBetween(k, i, m);
      }
      DividesNext(k, i);
      i := i + k;
    }
  }

  // ---------------------------------------------------------------------
  // All workers

  /** MPI_Reduce with MPI_SUM: the sum of the local counts; no local count
      exceeds it. */
  function Sum(counts: seq<nat>): (total: nat)
    ensures forall v :: 0 <= v < |counts| ==> counts[v] <= total
  {
    if counts == [] then 0 else Sum(counts[..|counts| - 1]) + counts[|counts| - 1]
  }

  /** The pieces laid end to end. */
  function Concat(parts: seq<seq<bool>>): (whole: seq<bool>)
  {
    if parts == [] then [] else Concat(parts[..|parts| - 1]) + parts[|parts| - 1]
  }

  /** The local true-count of every piece. */
  function Counts(parts: seq<seq<bool>>): (counts: seq<nat>)
  {
    seq(|parts|, v requires 0 <= v < |parts| => CountTrue(parts[v]))
  }

  /** Whatever the flags, summing the local counts counts the true entries
      of all pieces laid end to end: the reduction loses and adds nothing. */
  lemma {:induction false} SumOfCounts(parts: seq<seq<bool>>)
    ensures Sum(Counts(parts)) == CountTrue(Concat(parts))
  {
    if parts != [] {
      var n := |parts| - 1;
      SumOfCounts(parts[..n]);
      assert Counts(parts)[..n] == Counts(parts[..n]);
      CountTrueAppend(Concat(parts[..n]), parts[n]);
    }
  }

  /** The correct flags for the range of worker w. */
  function WorkerFlags(N: nat, P: nat, w: nat): (flags: seq<bool>)
    requires 1 <= P && w < P
  {
    PrimeFlags(Split(N, P, w).start, Split(N, P, w).Size())
  }

  /** Where the range of worker w starts, and N for w == P. */
  function Boundary(N: nat, P: nat, w: nat): (b: nat)
    requires 1 <= P && w <= P
  {
    if w == P then N else Split(N, P, w).start
  }

  lemma {:induction false} PrefixCounts(N: nat, P: nat, counts: seq<nat>, w: nat)
    requires 1 <= P && |counts| == P && w <= P
    requires forall v :: 0 <= v < P ==> counts[v] == CountTrue(WorkerFlags(N, P, v))
    ensures Sum(counts[..w]) == CountTrue(PrimeFlags(0, Boundary(N, P, w)))
  {
    if w == 0 {
      SplitEnds(N, P);
      assert counts[..0] == [];
    } else {
      var v := w - 1;
      PrefixCounts(N, P, counts, v);
      assert counts[..w][..v] == counts[..v];
      var r := Split(N, P, v);
      BoundaryStep(N, P, v);
      CountPrimeFlagsSplit(r.start, r.Size());
    }
  }

  lemma BoundaryStep(N: nat, P: nat, v: nat)
    requires 1 <= P && v < P
    ensures Boundary(N, P, v) == Split(N, P, v).start
    ensures Boundary(N, P, v + 1) == Split(N, P, v).start + Split(N, P, v).Size()
  {
    if v + 1 < P {
      SplitContiguous(N, P, v);
    } else {
      SplitEnds(N, P);
    }
  }

  /** Summing the local counts of correct flags counts the primes below N:
      the ranges cover [0, N - 1] once each. */
  lemma SumOfLocalCounts(N: nat, P: nat, counts: seq<nat>)
    requires 1 <= P && |counts| == P
    requires forall v :: 0 <= v < P ==> counts[v] == CountTrue(WorkerFlags(N, P, v))
    ensures Sum(counts) == |PrimesBelow(N)|
  {
    PrefixCounts(N, P, counts, P);
    assert counts[..P] == counts;
    CountPrimeFlags(N);
  }

  /** The local arrays of the P workers: one per worker, pairwise distinct,
      each as long as the worker's range. */
  ghost predicate Layout(vecs: seq<array<bool>>, N: nat, P: nat)
  {
    1 <= P && |vecs| == P
    && (forall w :: 0 <= w < P ==> vecs[w].Length == Split(N, P, w).Size())
    && (forall u, v :: 0 <= u < v < P ==> vecs[u] != vecs[v])
  }

  ghost function Arrays(vecs: seq<array<bool>>): (arrays: set<array<bool>>)
  {
    set w | 0 <= w < |vecs| :: vecs[w]
  }

  /** Every worker's flags hold the rounds below k over its own range. */
  ghost predicate FlagsBelow(vecs: seq<array<bool>>, N: nat, P: nat, k: nat)
    requires Layout(vecs, N, P)
    reads Arrays(vecs)
  {
    forall w, j :: 0 <= w < P && 0 <= j < vecs[w].Length ==>
      vecs[w][j] == Survivor(Split(N, P, w).start + j, k)
  }

  /** The range split (par.cpp:61-66) and every worker's local array
      (par.cpp:11-16): the flags before the first round. */
  method InitWorkers(N: nat, P: nat) returns (vecs: seq<array<bool>>)
    requires 1 <= P && N / P >= 2
    ensures Layout(vecs, N, P)
    ensures forall w :: 0 <= w < P ==> fresh(vecs[w])
    ensures FlagsBelow(vecs, N, P, 2)
  {
    var size := N / P;
    vecs := [];
    var w := 0;
    while w < P
      invariant 0 <= w <= P && |vecs| == w
      invariant forall v :: 0 <= v < w ==> fresh(vecs[v]) && vecs[v].Length == Split(N, P, v).Size()
      invariant forall u, v :: 0 <= u < v < w ==> vecs[u] != vecs[v]
      invariant forall v, j :: 0 <= v < w && 0 <= j < vecs[v].Length ==>
        vecs[v][j] == Survivor(Split(N, P, v).start + j, 2)
    {
      var r := Split(N, P, w);
      SplitSize(N, P, w);
      var primeVec := InitLocal(r.start, r.stop);
      if w > 0 {
        MulLeft(1, w, size);
      }
      vecs := vecs + [primeVec];
      w := w + 1;
    }
  }

  /** The marking phase of a round: every worker clears the multiples of its
      k in its own range, as MarkLocal does; no worker's array is touched by
      another worker. */
  method MarkAll(vecs: seq<array<bool>>, N: nat, P: nat, ks: seq<nat>)
    requires Layout(vecs, N, P) && |ks| == P
    requires forall w :: 0 <= w < P ==> ks[w] >= 2
    modifies Arrays(vecs)
    ensures forall w :: 0 <= w < P ==> vecs[w][..] == Struck(old(vecs[w][..]), Split(N, P, w).start, ks[w])
  {
    var w := 0;
    while w < P
      invariant 0 <= w <= P
      invariant forall v :: 0 <= v < w ==> vecs[v][..] == Struck(old(vecs[v][..]), Split(N, P, v).start, ks[v])
      invariant forall v :: w <= v < P ==> vecs[v][..] == old(vecs[v][..])
    {
      var r := Split(N, P, w);
      MarkLocal(vecs[w], r.start, r.stop, ks[w]);
      w := w + 1;
    }
  }

  /** After the marking phase with the same k everywhere, the flags hold the
      rounds below k + 1. */
  lemma MarkedFlags(before: seq<seq<bool>>, vecs: seq<array<bool>>, N: nat, P: nat, k: nat)
    requires Layout(vecs, N, P) && |before| == P && k >= 2
    requires forall w, j :: 0 <= w < P && 0 <= j < |before[w]| ==>
      before[w][j] == Survivor(Split(N, P, w).start + j, k)
    requires forall w :: 0 <= w < P ==> vecs[w][..] == Struck(before[w], Split(N, P, w).start, k)
    ensures FlagsBelow(vecs, N, P, k + 1)
  {
    forall w, j | 0 <= w < P && 0 <= j < vecs[w].Length
      ensures vecs[w][j] == Survivor(Split(N, P, w).start + j, k + 1)
    {
      StruckSurvivors(before[w], Split(N, P, w).start, k);
      assert vecs[w][j] == vecs[w][..][j];
    }
  }

  /** Once k * k > N the flags of every worker are exactly primality. */
  lemma FinalFlags(vecs: seq<array<bool>>, N: nat, P: nat, k: nat)
    requires Layout(vecs, N, P) && k >= 2 && k * k > N
    requires FlagsBelow(vecs, N, P, k)
    ensures forall w :: 0 <= w < P ==> vecs[w][..] == WorkerFlags(N, P, w)
  {
    forall w | 0 <= w < P
      ensures vecs[w][..] == WorkerFlags(N, P, w)
    {
      var start := Split(N, P, w).start;
      forall j | 0 <= j < vecs[w].Length
        ensures vecs[w][j] == IsPrime(start + j)
      {
        SplitWithinDomain(N, P, w, start + j);
        SurvivorBelowSquare(start + j, k);
      }
    }
  }

  /** One round with candidate k held by every worker: the marking phase,
      then worker 0's election of the next candidate by a scan of its own
      array from local index k + 1 (par.cpp:33-37). That scan starts inside
      the array only when k + 1 <= N / P, which is what this round demands.
      The flags then hold the rounds below the elected candidate, which is
      larger than k, at most worker 0's length N / P and, when below it, prime. */
  method Round(vecs: seq<array<bool>>, N: nat, P: nat, ks: seq<nat>) returns (next: nat)
    requires Layout(vecs, N, P) && |ks| == P
    requires forall w :: 0 <= w < P ==> ks[w] == ks[0]
    requires 2 <= ks[0] && ks[0] + 1 <= N / P
    requires FlagsBelow(vecs, N, P, ks[0])
    modifies Arrays(vecs)
    ensures ks[0] < next <= N / P
    ensures next == vecs[0].Length || (next < vecs[0].Length && vecs[0][next])
    ensures forall j :: ks[0] < j < next ==> !vecs[0][j]
    ensures next < N / P ==> IsPrime(next)
    ensures FlagsBelow(vecs, N, P, next)
  {
    var k := ks[0];
    ghost var before := seq(P, w requires 0 <= w < P reads Arrays(vecs) => vecs[w][..]);
    MarkAll(vecs, N, P, ks);
    MarkedFlags(before, vecs, N, P, k);

    SplitSize(N, P, 0);
    SplitEnds(N, P);
    next := FindNextTrue(vecs[0], k + 1);
    assert forall i :: 0 <= i < vecs[0].Length ==> vecs[0][..][i] == Survivor(i, k + 1);
    ElectedCandidate(vecs[0][..], k, next);
  }

  /** The per-worker sieve for P workers over [0, N), rounds in lockstep, as
      par.cpp runs it. Worker 0 can elect the next candidate from its own
      array only while that array reaches past the square root of N, hence
      the second requires: with it, every worker ends holding exactly the
      primality of its range, and the summed count is the number of primes
      below N. */
  method Run(N: nat, P: nat) returns (vecs: seq<array<bool>>, globalCount: nat)
    requires 1 <= P && N / P >= 2
    requires (N / P) * (N / P) > N
    ensures |vecs| == P && forall w :: 0 <= w < P ==> fresh(vecs[w])
    ensures forall w :: 0 <= w < P ==> vecs[w][..] == WorkerFlags(N, P, w)
    ensures globalCount == |PrimesBelow(N)|
  {
    vecs := InitWorkers(N, P);

    // Every worker's own k (par.cpp:18); the broadcast keeps them equal.
    var ks := seq(P, _ => 2);
    while ks[0] * ks[0] <= N
      invariant |ks| == P && forall w :: 0 <= w < P ==> ks[w] == ks[0]
      invariant 2 <= ks[0] <= N / P
      invariant ks[0] < N / P ==> IsPrime(ks[0])
      invariant Layout(vecs, N, P) && forall w :: 0 <= w < P ==> fresh(vecs[w])
      invariant FlagsBelow(vecs, N, P, ks[0])
      decreases N / P - ks[0]
    {
      SquareLess(ks[0], N / P);
      var next := Round(vecs, N, P, ks);
      // Broadcast: every worker now holds the elected k (par.cpp:39).
      ks := seq(P, _ => next);
    }
    FinalFlags(vecs, N, P, ks[0]);
    globalCount := ReduceCounts(vecs, N, P);
  }

  /** Each worker's local count (par.cpp:70) and their sum (par.cpp:72),
      once every worker holds the correct flags of its range. */
  method ReduceCounts(vecs: seq<array<bool>>, N: nat, P: nat) returns (globalCount: nat)
    requires Layout(vecs, N, P)
    requires forall w :: 0 <= w < P ==> vecs[w][..] == WorkerFlags(N, P, w)
    ensures globalCount == |PrimesBelow(N)|
  {
    var localCounts: seq<nat> := [];
    var w := 0;
    while w < P
      invariant 0 <= w <= P && |localCounts| == w
      invariant forall v :: 0 <= v < w ==> localCounts[v] == CountTrue(WorkerFlags(N, P, v))
    {
      localCounts := localCounts + [CountTrue(vecs[w][..])];
      w := w + 1;
    }
    globalCount := Sum(localCounts);
    SumOfLocalCounts(N, P, localCounts);
  }

  /** With N = 30 and P = 10, worker 0 owns [0, 2]. The round for k = 2
      elects 3, the length of worker 0's array; 3 * 3 <= 30, so par.cpp runs
      a round for k = 3, whose election would scan from local index 4 of an
      array of length 3: Round's precondition ks[0] + 1 <= N / P fails. */
  method ElectionOverrunWitness() returns (vecs: seq<array<bool>>, next: nat)
    ensures Split(30, 10, 0).Size() == 3
    ensures next == 3 && next * next <= 30
    ensures next + 1 > Split(30, 10, 0).Size()
  {
    var N, P := 30, 10;
    vecs := InitWorkers(N, P);
    var ks := seq(P, _ => 2);
    next := Round(vecs, N, P, ks);
    SplitSize(N, P, 0);
  }

  // ---------------------------------------------------------------------
  // Corrected election: the minimum over all workers

  /** The flag of global number i, read from the array of the worker that owns i. */
  ghost function Flag(vecs: seq<array<bool>>, N: nat, P: nat, i: nat): (flag: bool)
    requires Layout(vecs, N, P) && i < N
    reads Arrays(vecs)
  {
    var w := Owner(N, P, i);
    vecs[w][i - Split(N, P, w).start]
  }

  /** The election as an all-reduce for the minimum: every worker reports
      the global index of its first flag after k, or N when it has none,
      and the least report is the next candidate: the first flagged number
      after k over the whole domain, or N. */
  method ElectGlobal(vecs: seq<array<bool>>, N: nat, P: nat, k: nat) returns (next: nat)
    requires Layout(vecs, N, P) && k < N
    ensures k < next <= N
    ensures next < N ==> Flag(vecs, N, P, next)
    ensures forall d :: k < d < next ==> !Flag(vecs, N, P, d)
  {
    next := N;
    var w := 0;
    while w < P
      invariant 0 <= w <= P
      invariant k < next <= N
      invariant next < N ==> Flag(vecs, N, P, next)
      invariant forall d :: k < d < next && Owner(N, P, d) < w ==> !Flag(vecs, N, P, d)
    {
      var r := Split(N, P, w);
      var from := if k + 1 <= r.start then 0 else Min(k + 1 - r.start, vecs[w].Length);
      var index := FindNextTrue(vecs[w], from);
      var report := if index < vecs[w].Length then r.start + index else N;
      if index < vecs[w].Length {
        SplitWithinDomain(N, P, w, report);
        OwnerUnique(N, P, report, w);
      }
      forall d | k < d < report && Owner(N, P, d) == w
        ensures !Flag(vecs, N, P, d)
      {
        assert d - r.start < index;
      }
      next := Min(next, report);
      w := w + 1;
    }
  }

  function Min(a: nat, b: nat): (m: nat)
  {
    if a <= b then a else b
  }

  /** The per-worker sieve with the corrected election: correct for every
      split in which worker 0 owns 0 and 1, whatever the size of its range. */
  method RunGlobalElection(N: nat, P: nat) returns (vecs: seq<array<bool>>, globalCount: nat)
    requires 1 <= P && N / P >= 2
    ensures |vecs| == P && forall w :: 0 <= w < P ==> fresh(vecs[w])
    ensures forall w :: 0 <= w < P ==> vecs[w][..] == WorkerFlags(N, P, w)
    ensures globalCount == |PrimesBelow(N)|
  {
    vecs := InitWorkers(N, P);
    var k := 2;
    BlocksFit(N, P, 1);
    while k * k <= N
      invariant 2 <= k <= N
      invariant k < N ==> IsPrime(k)
      invariant Layout(vecs, N, P) && forall w :: 0 <= w < P ==> fresh(vecs[w])
      invariant FlagsBelow(vecs, N, P, k)
      decreases N - k
    {
      ghost var before := seq(P, w requires 0 <= w < P reads Arrays(vecs) => vecs[w][..]);
      MarkAll(vecs, N, P, seq(P, _ => k));
      MarkedFlags(before, vecs, N, P, k);
      MulLeft(2, k, k);
      var next := ElectGlobal(vecs, N, P, k);
      GlobalFlags(vecs, N, P, k + 1);
      NextCandidate(k + 1, next, N);
      k := next;
    }
    FinalFlags(vecs, N, P, k);
    globalCount := ReduceCounts(vecs, N, P);
  }

  /** Read through Owner, the workers' flags are the flags of the whole domain. */
  lemma GlobalFlags(vecs: seq<array<bool>>, N: nat, P: nat, k: nat)
    requires Layout(vecs, N, P) && FlagsBelow(vecs, N, P, k)
    ensures forall i :: 0 <= i < N ==> Flag(vecs, N, P, i) == Survivor(i, k)
  {}

  // ---------------------------------------------------------------------
  // Agreement with the sequential sieve

  /** With one worker, par.cpp's sieve returns exactly seq.cpp's array. */
  method SingleWorkerMatchesSequential(N: nat) returns (seqVec: array<bool>, parVec: array<bool>)
    requires N >= 2
    ensures seqVec[..] == parVec[..]
    ensures |seqVec[..]| == N
  {
    seqVec := SeqSieve.Sieve(N);
    MulLeft(2, N, N);
    var vecs, _ := Run(N, 1);
    parVec := vecs[0];
    SplitEnds(N, 1);
    assert seqVec[..] == PrimeFlags(0, N);
  }

  /** The per-worker count equals the sequential count, for every split in
      which worker 0 owns 0 and 1 (with the corrected election). */
  method CountsAgree(N: nat, P: nat) returns (seqCount: nat, parCount: nat)
    requires 1 <= P && N / P >= 2
    ensures seqCount == parCount
  {
    BlocksFit(N, P, 1);
    seqCount := SeqSieve.CountPrimes(N);
    var _, c := RunGlobalElection(N, P);
    parCount := c;
  }
}
