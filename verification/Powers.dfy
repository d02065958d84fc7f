/** Powers of two, multiples and remainders. */
module Powers {

  function Pow2(k: nat): (r: nat)
    ensures r > 0
  {
    if k == 0 then 1 else 2 * Pow2(k - 1)
  }

  /** The remainder, as a name that proofs may keep folded. */
  function Rem(x: int, m: nat): (r: int)
    requires m > 0
    ensures 0 <= r < m
  {
    x % m
  }

  /** No multiple of `n` lies strictly between 0 and `n`. */
  lemma NoMultipleInside(n: nat, d: int)
    ensures n * d <= 0 || n <= n * d
  {}

  lemma ModDistinct(j: nat, k: nat, n: nat)
    requires j < k < j + n
    ensures j % n != k % n
  {
    NoMultipleInside(n, k / n - j / n);
    assert n * (k / n - j / n) == n * (k / n) - n * (j / n);
  }

  lemma MultipleMod(m: nat, c: int)
    requires m > 0
    ensures (m * c) % m == 0 && (m * c) / m == c
  {
    var q := (m * c) / m;
    var r := (m * c) % m;
    assert m * (c - q) == r;
    NoMultipleInside(m, c - q);
    NoMultipleInside(m, q - c);
    assert c - q == 0 || m * (c - q) != 0;
  }

  /** A multiple of `2m` and the point half a step after it are multiples of `m`. */
  lemma HalfSteps(m: nat, x: int)
    requires m > 0 && x % (2 * m) == 0
    ensures x % m == 0 && (x + m) % m == 0
  {
    var q := x / (2 * m);
    assert x == m * (2 * q);
    MultipleMod(m, 2 * q);
    assert x + m == m * (2 * q + 1);
    MultipleMod(m, 2 * q + 1);
  }

  lemma {:induction false} Pow2Grows(j: nat, k: nat)
    requires j < k
    ensures Pow2(j) < Pow2(k)
  {
    if j < k - 1 { Pow2Grows(j, k - 1); }
  }
}
