/** Division facts used across the models, stated once. */
module Arith {

  /** 2^32, the modulus of the target's `unsigned int` and `uint32_t`. */
  const WORD: int := 0x1_0000_0000

  /** 2^64, the modulus of `uint64_t`. */
  const DWORD: int := 0x1_0000_0000_0000_0000

  lemma {:induction false} MulAtLeast(n: int, k: int)
    requires 0 < n && 0 < k
    ensures n * k >= n
  {
    if k == 1 {
    } else {
      MulAtLeast(n, k - 1);
      assert n * k == n * (k - 1) + n;
    }
  }

  /** A multiple of n strictly between -n and n is zero. */
  lemma SmallMultiple(n: int, k: int)
    requires 0 < n && -n < n * k < n
    ensures k == 0
  {
    if k > 0 {
      MulAtLeast(n, k);
    } else if k < 0 {
      assert n * -k == -(n * k);
      MulAtLeast(n, -k);
    }
  }

  /** A quotient and remainder with 0 <= r < n are the quotient and remainder. */
  lemma DivModUnique(x: int, n: int, q: int, r: int)
    requires 0 < n && 0 <= r < n && x == n * q + r
    ensures x / n == q && x % n == r
  {
    var q', r' := x / n, x % n;
    assert x == n * q' + r';
    assert n * (q' - q) == r - r' by {
      assert n * (q' - q) == n * q' - n * q;
    }
    SmallMultiple(n, q' - q);
  }

  /** Reducing modulo a multiple of n first does not change the residue modulo n. */
  lemma ModOfMod(x: int, n: int, k: int)
    requires 0 < n && 0 < k
    ensures n * k > 0 && (x % (n * k)) % n == x % n
  {
    MulAtLeast(n, k);
    var m := n * k;
    var q, r := x / m, x % m;
    var c, d := r / n, r % n;
    assert x == n * (k * q + c) + d by {
      assert x == m * q + r && r == n * c + d;
      assert m * q == n * (k * q);
      assert n * (k * q + c) == n * (k * q) + n * c;
    }
    DivModUnique(x, n, k * q + c, d);
  }

  /** Numbers closer than n with the same residue are equal. */
  lemma ModInjective(i: int, j: int, n: int)
    requires 0 < n && i % n == j % n && -n < i - j < n
    ensures i == j
  {
    var a, b := i / n, j / n;
    assert i == n * a + i % n && j == n * b + j % n;
    assert n * (a - b) == n * a - n * b;
    SmallMultiple(n, a - b);
  }

  lemma ModShift(x: int, n: int, k: int)
    requires 0 < n
    ensures (x + n * k) % n == x % n
    ensures (x + n * k) / n == x / n + k
  {
    assert n * (x / n + k) == n * (x / n) + n * k;
    assert x == n * (x / n) + x % n;
    DivModUnique(x + n * k, n, x / n + k, x % n);
  }

  /** Residues of numbers within one modulus of the range. */
  lemma NearMod(x: int, n: int)
    requires 0 < n && -n <= x < 2 * n
    ensures x % n == if x < 0 then x + n else if x < n then x else x - n
  {
    var q := if x < 0 then -1 else if x < n then 0 else 1;
    DivModUnique(x, n, q, x - n * q);
  }

  lemma MulMono(a: nat, b: nat, k: nat)
    requires a <= b
    ensures a * k <= b * k
  {
    assert b * k == a * k + (b - a) * k;
  }
}
