/** Cyclic positions of an open-addressing table, without modular arithmetic. */
module Probing {
  import opened Words

  /** j lies on the cyclic arc that starts at a, runs upwards and stops before b. */
  predicate InArc(a: nat, j: nat, b: nat) {
    if a <= b then a <= j < b else a <= j || j < b
  }

  /** The slot after i in a table of n slots: (i + 1) & mask. */
  function Next(i: nat, n: nat): (r: nat)
    requires i < n
    ensures r < n
    ensures r == (i + 1) % n
  {
    if i + 1 == n then DivUnique(n, n, 1, 0); 0 else DivUnique(i + 1, n, 0, i + 1); i + 1
  }

  /** Steps needed to walk from a up to b. */
  function Dist(a: nat, b: nat, n: nat): (r: nat)
    requires a < n && b < n
    ensures r < n
  {
    if a <= b then b - a else b + n - a
  }
}
