/** Multiplication behind a name, so that proofs about counts do not multiply out. */
module Arithmetic {

  function Product(m: nat, n: nat): nat {
    m * n
  }

  lemma OneMore(m: nat, n: nat)
    ensures Product(m + 1, n) == Product(m, n) + n
  {
  }

  lemma Scaled(i: nat, j: nat, n: nat)
    requires i <= j
    ensures Product(i, n) <= Product(j, n)
    ensures i * n <= j * n
  {
  }
}
