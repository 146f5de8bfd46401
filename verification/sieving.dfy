/** What both sieves compute and keep: primality, the flags left after the
    rounds for every candidate below k, one marking round on a window of
    flags, the search for the next candidate, and counting the flags. */
module Sieving {
  import opened Arith

  predicate IsPrime(n: nat)
  {
    n >= 2 && forall d :: 2 <= d < n ==> !Divides(d, n)
  }

  /** The primes below n. */
  ghost function PrimesBelow(n: nat): (primes: set<nat>)
  {
    set i: nat | i < n && IsPrime(i)
  }

  /** Number i is still flagged after the marking rounds for the candidates
      below k: it is at least 2 and no d in [2, k) with d * d <= i divides it. */
  predicate Survivor(i: nat, k: nat)
  {
    i >= 2 && forall d :: 2 <= d < k && d * d <= i ==> !Divides(d, i)
  }

  /** The correct flags for the numbers lo, lo + 1, ..., lo + n - 1. */
  function PrimeFlags(lo: nat, n: nat): (flags: seq<bool>)
  {
    seq(n, j requires 0 <= j < n => IsPrime(lo + j))
  }

  /** One marking round with candidate k on a window of flags whose entry j
      stands for the number offset + j: every multiple of k that is at least
      k * k is cleared, every other entry is kept. The window keeps its
      length, flags are only ever cleared, and no number below k * k is
      touched. */
  function Struck(s: seq<bool>, offset: nat, k: nat): (r: seq<bool>)
    requires k > 0
    ensures |r| == |s|
    ensures forall j :: 0 <= j < |s| ==> (r[j] ==> s[j])
    ensures forall j :: 0 <= j < |s| && offset + j < k * k ==> r[j] == s[j]
  {
    seq(|s|, j requires 0 <= j < |s| => s[j] && !(offset + j >= k * k && Divides(k, offset + j)))
  }

  /** Number of true entries (std::count(..., true)). */
  function CountTrue(s: seq<bool>): (c: nat)
    ensures c <= |s|
  {
    if s == [] then 0 else CountTrue(s[..|s| - 1]) + (if s[|s| - 1] then 1 else 0)
  }

  /** The positions of the true entries. */
  ghost function TrueIndices(s: seq<bool>): (indices: set<nat>)
  {
    set j: nat | j < |s| && s[j]
  }

  /** std::find(begin + from, end, true), as an index: the first true entry
      at or after from, or the length when there is none. */
  method FindNextTrue(a: array<bool>, from: nat) returns (index: nat)
    requires from <= a.Length
    ensures from <= index <= a.Length
    ensures index < a.Length ==> a[index]
    ensures forall j :: from <= j < index ==> !a[j]
  {
    index := from;
    while index < a.Length && !a[index]
      invariant from <= index <= a.Length
      invariant forall j :: from <= j < index ==> !a[j]
    {
      index := index + 1;
    }
  }

  // ---------------------------------------------------------------------
  // Survivors and primes

  /** Below k * k the survivors of the rounds below k are exactly the primes. */
  lemma SurvivorBelowSquare(i: nat, k: nat)
    requires 2 <= k && i < k * k
    ensures Survivor(i, k) <==> IsPrime(i)
  {
    if IsPrime(i) {
      PrimeSurvives(i, k);
    }
    if Survivor(i, k) && !IsPrime(i) {
      var d :| 2 <= d < i && Divides(d, i);
      DividesQuotient(d, i);
      var e := i / d;
      if d * d <= i {
        SquareLeBelow(d, k, i);
      } else {
        SmallCofactor(i, d, e);
        SquareLeBelow(e, k, i);
      }
    }
  }

  /** If d divides i with d * d > i, the cofactor e = i / d is a divisor of i
      with e * e <= i. */
  lemma SmallCofactor(i: nat, d: nat, e: nat)
    requires 2 <= d < i && i == e * d && d * d > i
    ensures 2 <= e && e * e <= i && Divides(e, i)
  {
    assert e < d by {
      if e >= d { MulLeft(d, e, d); }
    }
    assert e >= 2 by {
      if e <= 1 { MulLeft(e, 1, d); }
    }
    MulLeft(e, d, e);
    MultipleDivides(d, e);
    assert d * e == i;
  }

  /** A prime is a survivor of every round. */
  lemma PrimeSurvives(i: nat, k: nat)
    requires IsPrime(i)
    ensures Survivor(i, k)
  {
    forall d | 2 <= d < k && d * d <= i
      ensures !Divides(d, i)
    {
      MulLeft(2, d, d);
    }
  }

  /** The round with candidate k clears exactly the multiples of k from k * k on. */
  lemma StrikeStep(i: nat, k: nat)
    requires k >= 2
    ensures Survivor(i, k + 1) <==> Survivor(i, k) && !(i >= k * k && Divides(k, i))
  {
    if Survivor(i, k) && !(i >= k * k && Divides(k, i)) {
      forall d | 2 <= d < k + 1 && d * d <= i
        ensures !Divides(d, i)
      {
        if d < k {
        } else {
          assert d == k;
        }
      }
    }
  }

  /** Candidates skipped by the search for the next candidate change nothing:
      every number in [after, next) that is no longer flagged has a divisor
      below after, so its own multiples were already cleared. */
  lemma SkipComposites(i: nat, after: nat, next: nat)
    requires 3 <= after <= next
    requires forall d :: after <= d < next ==> !Survivor(d, after)
    ensures Survivor(i, next) <==> Survivor(i, after)
  {
    if Survivor(i, after) && !Survivor(i, next) {
      var d :| 2 <= d < next && d * d <= i && Divides(d, i);
      assert !Survivor(d, after);
      var e :| 2 <= e < after && e * e <= d && Divides(e, d);
      DividesTransitive(e, d, i);
      MulLeft(1, d, d);
    }
  }

  /** A flag that survives the rounds below its own value belongs to a prime. */
  lemma SurvivorOfOwnRoundsIsPrime(n: nat)
    requires Survivor(n, n)
    ensures IsPrime(n)
  {
    MulLeft(2, n, n);
    SurvivorBelowSquare(n, n);
  }

  /** The next candidate, seen over all numbers below bound: when every
      number in [after, next) is cleared after the rounds below after, and
      next (if below bound) is not, then the flags already hold the rounds
      below next, and next is prime. */
  lemma NextCandidate(after: nat, next: nat, bound: nat)
    requires 3 <= after <= next <= bound
    requires forall d :: after <= d < next ==> !Survivor(d, after)
    requires next < bound ==> Survivor(next, after)
    ensures forall i: nat :: Survivor(i, next) <==> Survivor(i, after)
    ensures next < bound ==> IsPrime(next)
  {
    forall i: nat
      ensures Survivor(i, next) <==> Survivor(i, after)
    {
      SkipComposites(i, after, next);
    }
    if next < bound {
      SurvivorOfOwnRoundsIsPrime(next);
    }
  }

  /** The election of the next candidate on flags of [0, |s|) that hold the
      rounds below k + 1: when next is the first flagged entry after k (or
      |s|), the flags hold the rounds below next, and a flagged next is prime. */
  lemma ElectedCandidate(s: seq<bool>, k: nat, next: nat)
    requires 2 <= k && k + 1 <= next <= |s|
    requires forall i :: 0 <= i < |s| ==> s[i] == Survivor(i, k + 1)
    requires forall j :: k + 1 <= j < next ==> !s[j]
    requires next < |s| ==> s[next]
    ensures forall i: nat :: Survivor(i, next) <==> Survivor(i, k + 1)
    ensures next < |s| ==> IsPrime(next)
  {
    var after := k + 1;
    forall d | after <= d < next
      ensures !Survivor(d, after)
    {
      assert !s[d];
    }
    NextCandidate(after, next, |s|);
  }

  /** The window after a round with candidate k, when it held the flags of
      the rounds below k, holds the flags of the rounds below k + 1. */
  lemma StruckSurvivors(s: seq<bool>, offset: nat, k: nat)
    requires k >= 2
    requires forall j :: 0 <= j < |s| ==> s[j] == Survivor(offset + j, k)
    ensures |Struck(s, offset, k)| == |s|
    ensures forall j :: 0 <= j < |s| ==> Struck(s, offset, k)[j] == Survivor(offset + j, k + 1)
  {
    forall j | 0 <= j < |s|
      ensures Struck(s, offset, k)[j] == Survivor(offset + j, k + 1)
    {
      StrikeStep(offset + j, k);
    }
  }

  /** Marking twice with the same candidate is marking once. */
  lemma StruckIdempotent(s: seq<bool>, offset: nat, k: nat)
    requires k > 0
    ensures Struck(Struck(s, offset, k), offset, k) == Struck(s, offset, k)
  {
    var once := Struck(s, offset, k);
    assert forall j :: 0 <= j < |once| ==> Struck(once, offset, k)[j] == once[j];
  }

  // ---------------------------------------------------------------------
  // Counting

  lemma {:induction false} CountTrueAppend(a: seq<bool>, b: seq<bool>)
    ensures CountTrue(a + b) == CountTrue(a) + CountTrue(b)
  {
    if b == [] {
      assert a + b == a;
    } else {
      var b' := b[..|b| - 1];
      assert (a + b)[..|a + b| - 1] == a + b';
      CountTrueAppend(a, b');
    }
  }

  /** The count is the number of true positions. */
  lemma {:induction false} CountTrueIsCardinality(s: seq<bool>)
    ensures CountTrue(s) == |TrueIndices(s)|
  {
    if s == [] {
      assert TrueIndices(s) == {};
    } else {
      var n := |s| - 1;
      var s' := s[..n];
      CountTrueIsCardinality(s');
      if s[n] {
        assert TrueIndices(s) == TrueIndices(s') + {n};
        assert n !in TrueIndices(s');
      } else {
        assert TrueIndices(s) == TrueIndices(s');
      }
    }
  }

  /** Counting the correct flags of [0, n) counts the primes below n. */
  lemma CountPrimeFlags(n: nat)
    ensures CountTrue(PrimeFlags(0, n)) == |PrimesBelow(n)|
  {
    CountTrueIsCardinality(PrimeFlags(0, n));
    assert TrueIndices(PrimeFlags(0, n)) == PrimesBelow(n);
  }

  /** Counting the correct flags of [0, lo + n) is counting those of
      [0, lo) and those of [lo, lo + n). */
  lemma CountPrimeFlagsSplit(lo: nat, n: nat)
    ensures CountTrue(PrimeFlags(0, lo + n)) == CountTrue(PrimeFlags(0, lo)) + CountTrue(PrimeFlags(lo, n))
  {
    PrimeFlagsAppend(0, lo, n);
    CountTrueAppend(PrimeFlags(0, lo), PrimeFlags(lo, n));
  }

  /** Adjacent windows of correct flags concatenate. */
  lemma PrimeFlagsAppend(lo: nat, n: nat, m: nat)
    ensures PrimeFlags(lo, n) + PrimeFlags(lo + n, m) == PrimeFlags(lo, n + m)
  {}
}
