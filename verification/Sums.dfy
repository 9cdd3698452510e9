/**
Finite sums of integer functions.
*/
module Sums {

  function Sum(f: int -> int, n: nat): (s: int) {
    if n == 0 then 0 else Sum(f, n - 1) + f(n - 1)
  }

  lemma {:induction false} SumEqual(f: int -> int, g: int -> int, n: nat)
    requires forall i :: 0 <= i < n ==> f(i) == g(i)
    ensures Sum(f, n) == Sum(g, n)
  {
    if n > 0 {
      SumEqual(f, g, n - 1);
    }
  }

  /** Terms that are zero from k on add nothing. */
  lemma {:induction false} SumZeroTail(f: int -> int, k: nat, n: nat)
    requires k <= n && forall i :: k <= i < n ==> f(i) == 0
    ensures Sum(f, n) == Sum(f, k)
  {
    if k < n {
      SumZeroTail(f, k, n - 1);
    }
  }

  lemma {:induction false} SumAdd(f: int -> int, g: int -> int, h: int -> int, n: nat)
    requires forall i :: 0 <= i < n ==> h(i) == f(i) + g(i)
    ensures Sum(h, n) == Sum(f, n) + Sum(g, n)
  {
    if n > 0 {
      SumAdd(f, g, h, n - 1);
    }
  }

  lemma {:induction false} SumScale(f: int -> int, g: int -> int, c: int, n: nat)
    requires forall i :: 0 <= i < n ==> g(i) == c * f(i)
    ensures Sum(g, n) == c * Sum(f, n)
  {
    if n > 0 {
      SumScale(f, g, c, n - 1);
      assert g(n - 1) == c * f(n - 1);
      assert c * Sum(f, n) == c * Sum(f, n - 1) + c * f(n - 1);
    }
  }

  lemma {:induction false} SumAtMost(f: int -> int, g: int -> int, n: nat)
    requires forall i :: 0 <= i < n ==> f(i) <= g(i)
    ensures Sum(f, n) <= Sum(g, n)
  {
    if n > 0 {
      SumAtMost(f, g, n - 1);
    }
  }

  /** Differences of neighbours collapse to the ends. */
  lemma {:induction false} SumTelescopes(f: int -> int, g: int -> int, n: nat)
    requires forall i :: 0 <= i < n ==> g(i) == f(i + 1) - f(i)
    ensures Sum(g, n) == f(n) - f(0)
  {
    if n > 0 {
      SumTelescopes(f, g, n - 1);
    }
  }

  /** The inner sums of a table by rows, and by columns. */
  function RowSums(f: (int, int) -> int, n: nat): (r: int -> int) {
    i => Sum(j => f(i, j), n)
  }

  function ColumnSums(f: (int, int) -> int, m: nat): (r: int -> int) {
    j => Sum(i => f(i, j), m)
  }

  /** The order of summation over a table does not matter. */
  lemma {:induction false} SumSwap(f: (int, int) -> int, m: nat, n: nat)
    ensures Sum(RowSums(f, n), m) == Sum(ColumnSums(f, m), n)
    decreases n
  {
    if n == 0 {
      SumZeroTail(RowSums(f, 0), 0, m);
    } else {
      SumSwap(f, m, n - 1);
      var last := (i: int) => f(i, n - 1);
      forall i | 0 <= i < m
        ensures RowSums(f, n)(i) == RowSums(f, n - 1)(i) + last(i)
      {
      }
      SumAdd(RowSums(f, n - 1), last, RowSums(f, n), m);
      assert ColumnSums(f, m)(n - 1) == Sum(last, m) by {
        SumEqual(i => f(i, n - 1), last, m);
      }
    }
  }
}
