/** The single-process sieve of seq.cpp: one array of N flags, rounds while
    k * k <= N, each round clearing k * k, k * k + k, ... below N and then
    moving k to the next entry after k that is still flagged. */
module SeqSieve {
  import opened Arith
  import opened Sieving

  /** The marking loop of one round: clears k * k, k * k + k, ... below N. */
  method MarkMultiples(primeVec: array<bool>, k: nat)
    requires k >= 2
    modifies primeVec
    ensures primeVec[..] == Struck(old(primeVec[..]), 0, k)
  {
    var i := k * k;
    MultipleDivides(k, k);
    while i < primeVec.Length
      invariant k * k <= i && Divides(k, i)
      invariant forall j :: 0 <= j < primeVec.Length ==>
        primeVec[j] == (old(primeVec[j]) && !(k * k <= j < i && Divides(k, j)))
      decreases primeVec.Length - i
    {
      primeVec[i] := false;
      forall j | i < j < i + k
        ensures !Divides(k, j)
      {
        NoMultipleBetween(k, i, j);
      }
      DividesNext(k, i);
      i := i + k;
    }
  }

  /** sieve(N): the flags of [0, N) after all rounds are exactly primality;
      every round starts with a prime candidate whose square is at most N. */
  method Sieve(N: nat) returns (primeVec: array<bool>)
    requires N >= 2
    ensures fresh(primeVec)
    ensures primeVec.Length == N
    ensures forall i :: 0 <= i < N ==> primeVec[i] == IsPrime(i)
  {
    primeVec := new bool[N](_ => true);
    primeVec[0] := false;
    primeVec[1] := false;

    var k := 2;
    while k * k <= N
      invariant 2 <= k <= N
      invariant k < N ==> IsPrime(k)
      invariant forall i :: 0 <= i < N ==> primeVec[i] == Survivor(i, k)
      decreases N - k
    {
      ghost var before := primeVec[..];
      MarkMultiples(primeVec, k);
      StruckSurvivors(before, 0, k);

      MulLeft(2, k, k);
      var index := FindNextTrue(primeVec, k + 1);
      ElectedCandidate(primeVec[..], k, index);
      k := index;
    }

    forall i | 0 <= i < N
      ensures primeVec[i] == IsPrime(i)
    {
      SurvivorBelowSquare(i, k);
    }
  }

  /** main, line 45: the number of true flags the sieve returns is the
      number of primes below N. */
  method CountPrimes(N: nat) returns (count: nat)
    requires N >= 2
    ensures count == |PrimesBelow(N)|
  {
    var primeVec := Sieve(N);
    count := CountTrue(primeVec[..]);
    assert primeVec[..] == PrimeFlags(0, N);
    CountPrimeFlags(N);
  }
}
