/** Small facts of nonlinear integer arithmetic that the sieve proofs lean on. */
module Arith {

  /** d divides n. */
  predicate Divides(d: nat, n: nat)
    requires d > 0
  {
    n % d == 0
  }

  lemma MulLeft(a: int, b: int, c: nat)
    requires a <= b
    ensures c * a <= c * b
  {}

  lemma MulCancel(a: int, b: int, k: nat)
    requires k > 0 && a * k < b * k
    ensures a < b
  {
    if a >= b {
      MulLeft(b, a, k);
    }
  }

  lemma SquareLess(a: nat, b: nat)
    requires a * a < b * b
    ensures a < b
  {
    if a >= b {
      MulLeft(b, a, a);
      MulLeft(b, a, b);
    }
  }

  lemma SquareLeBelow(a: nat, b: nat, n: nat)
    requires a * a <= n < b * b
    ensures a < b
  {
    SquareLess(a, b);
  }

  lemma MultipleDivides(q: nat, d: nat)
    requires d > 0
    ensures Divides(d, q * d)
  {
    var m := q * d;
    assert m == (m / d) * d + m % d;
    if m % d != 0 {
      // m % d == (q - m / d) * d with 0 < m % d < d: impossible
      var t := q - m / d;
      assert m % d == t * d;
      if t <= 0 {
        MulLeft(t, 0, d);
      } else {
        MulLeft(1, t, d);
      }
    }
  }

  lemma DividesQuotient(d: nat, n: nat)
    requires d > 0 && Divides(d, n)
    ensures n == (n / d) * d
  {}

  lemma DividesTransitive(e: nat, d: nat, n: nat)
    requires e > 0 && d > 0 && Divides(e, d) && Divides(d, n)
    ensures Divides(e, n)
  {
    var q, r := n / d, d / e;
    DividesQuotient(d, n);
    DividesQuotient(e, d);
    assert n == (q * r) * e;
    MultipleDivides(q * r, e);
  }

  /** A multiple of k plus k is again a multiple of k. */
  lemma DividesNext(k: nat, i: nat)
    requires k > 0 && Divides(k, i)
    ensures Divides(k, i + k)
  {
    DividesQuotient(k, i);
    assert i + k == (i / k + 1) * k;
    MultipleDivides(i / k + 1, k);
  }

  /** Strictly between two consecutive multiples of k there is no multiple of k. */
  lemma NoMultipleBetween(k: nat, i: nat, j: nat)
    requires k > 0 && Divides(k, i) && i < j < i + k
    ensures !Divides(k, j)
  {
    DividesQuotient(k, i);
    if Divides(k, j) {
      DividesQuotient(k, j);
      var a, b := i / k, j / k;
      if b <= a {
        MulLeft(b, a, k);
      } else {
        MulLeft(a + 1, b, k);
      }
    }
  }
}
