/** The range split of par.cpp's main: worker id of P owns the inclusive
    global range [(N / P) * id, (N / P) * (id + 1) - 1], and the last worker's
    range is stretched to end at N - 1. */
module Partition {
  import opened Arith

  /** An inclusive range [start, stop]; it is empty when stop = start - 1. */
  datatype Range = Range(start: nat, stop: int)
  {
    predicate Contains(i: int)
    {
      start <= i <= stop
    }

    /** Number of entries, stop - start + 1. */
    function Size(): (size: nat)
      requires start <= stop + 1
    {
      stop + 1 - start
    }
  }

  /** (N / P) * P is at most N, so every product (N / P) * id with id <= P is too. */
  lemma BlocksFit(N: nat, P: nat, id: nat)
    requires 1 <= P && id <= P
    ensures (N / P) * id <= (N / P) * P <= N
  {
    MulLeft(id, P, N / P);
  }

  /** The range of worker id: never of negative size. */
  function Split(N: nat, P: nat, id: nat): (r: Range)
    requires 1 <= P && id < P
    ensures r.start <= r.stop + 1
  {
    var size := N / P;
    BlocksFit(N, P, id);
    BlocksFit(N, P, id + 1);
    Range(size * id, if id == P - 1 then N - 1 else size * (id + 1) - 1)
  }

  /** The first range starts at 0 and the last one ends at N - 1. */
  lemma SplitEnds(N: nat, P: nat)
    requires 1 <= P
    ensures Split(N, P, 0).start == 0
    ensures Split(N, P, P - 1).stop == N - 1
  {}

  /** Each range ends just before the next one starts. */
  lemma SplitContiguous(N: nat, P: nat, id: nat)
    requires 1 <= P && id + 1 < P
    ensures Split(N, P, id).stop + 1 == Split(N, P, id + 1).start
  {}

  /** Every range lies inside [0, N - 1]. */
  lemma SplitWithinDomain(N: nat, P: nat, id: nat, i: int)
    requires 1 <= P && id < P && Split(N, P, id).Contains(i)
    ensures 0 <= i < N
  {
    BlocksFit(N, P, id + 1);
  }

  /** Each range has at least N / P entries; worker 0's has exactly N / P. */
  lemma SplitSize(N: nat, P: nat, id: nat)
    requires 1 <= P && id < P
    ensures Split(N, P, id).Size() >= N / P
    ensures id == 0 ==> Split(N, P, id).Size() == N / P
  {
    var size := N / P;
    BlocksFit(N, P, id);
    if id == P - 1 {
      assert size * id + size == size * P;
    } else {
      assert size * (id + 1) == size * id + size;
    }
  }

  /** The worker whose range holds number i. */
  function Owner(N: nat, P: nat, i: nat): (id: nat)
    requires 1 <= P && i < N
    ensures id < P && Split(N, P, id).Contains(i)
  {
    var size := N / P;
    if size == 0 || i / size >= P - 1 then
      LastBlockHolds(N, P, i);
      P - 1
    else
      QuotientBlockHolds(N, P, i);
      i / size
  }

  lemma LastBlockHolds(N: nat, P: nat, i: nat)
    requires 1 <= P && i < N
    requires N / P == 0 || i / (N / P) >= P - 1
    ensures (N / P) * (P - 1) <= i
  {
    var size := N / P;
    if size > 0 {
      MulLeft(P - 1, i / size, size);
    }
  }

  lemma QuotientBlockHolds(N: nat, P: nat, i: nat)
    requires 1 <= P && i < N
    requires N / P > 0
    ensures (N / P) * (i / (N / P)) <= i < (N / P) * (i / (N / P) + 1)
  {}

  /** No number lies in two ranges: a range that holds i is Owner's. */
  lemma OwnerUnique(N: nat, P: nat, i: nat, id: nat)
    requires 1 <= P && i < N && id < P && Split(N, P, id).Contains(i)
    ensures id == Owner(N, P, i)
  {
    var size := N / P;
    if size > 0 {
      if id < P - 1 {
        QuotientOfBlock(size, i, id);
      } else {
        QuotientAtLeast(size, i, P - 1);
      }
    }
  }

  lemma QuotientOfBlock(size: nat, i: nat, q: nat)
    requires size > 0 && size * q <= i < size * (q + 1)
    ensures i / size == q
  {
    var r := i / size;
    if r < q {
      MulLeft(r + 1, q, size);
    } else if r > q {
      MulLeft(q + 1, r, size);
    }
  }

  lemma QuotientAtLeast(size: nat, i: nat, q: nat)
    requires size > 0 && size * q <= i
    ensures i / size >= q
  {
    var r := i / size;
    if r < q {
      MulLeft(r + 1, q, size);
    }
  }
}
