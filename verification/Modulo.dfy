/** Remainders of natural numbers by a variable modulus. */
module Modulo {

  /** `%` on non-negative operands, the same in Go and JavaScript. */
  function Mod(x: nat, n: nat): (r: nat)
    requires n > 0
    ensures r < n
  {
    x % n
  }

  lemma AtLeastOnce(m: int, n: nat)
    requires m >= 1
    ensures m * n >= n
  {
    assert m * n == (m - 1) * n + n;
  }

  lemma ModTurn(y: nat, n: nat)
    requires n > 0
    ensures Mod(y + n, n) == Mod(y, n)
  {
    var m := (y + n) / n - y / n - 1;
    assert m * n == (y + n) / n * n - y / n * n - n;
    assert m * n == y % n - (y + n) % n;
    if m >= 1 { AtLeastOnce(m, n); }
    if m <= -1 { AtLeastOnce(-m, n); }
  }

  lemma ModSmall(x: nat, n: nat)
    requires x < n
    ensures Mod(x, n) == x
  {}

  lemma NextIndex(i: nat, n: nat)
    requires i < n
    ensures Mod(i + 1, n) == if i + 1 < n then i + 1 else 0
  {
    hide Mod;
    if i + 1 < n {
      ModSmall(i + 1, n);
    } else {
      ModTurn(0, n);
      ModSmall(0, n);
    }
  }
}
