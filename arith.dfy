/** Facts about Euclidean division that the round-robin cursor needs. */
module Arith {
  /** Distinct multiples of `n` are at least `n` apart. */
  lemma MulGap(a: int, b: int, n: int)
    requires n > 0
    ensures a == b || a * n - b * n >= n || b * n - a * n >= n
  {
    if a > b {
      MulAtLeast(a - b, n);
      assert (a - b) * n == a * n - b * n;
    } else if b > a {
      MulAtLeast(b - a, n);
      assert (b - a) * n == b * n - a * n;
    }
  }

  lemma MulAtLeast(d: int, n: int)
    requires n > 0 && d >= 1
    ensures d * n >= n
  {
    var k := d - 1;
    assert d * n == k * n + n;
    assert k * n >= 0;
  }

  /** The remainder is determined by any quotient-remainder split. */
  lemma ModUnique(x: int, n: int, q: int, r: int)
    requires n > 0 && 0 <= r < n && x == q * n + r
    ensures x % n == r
  {
    assert x == (x / n) * n + x % n;
    MulGap(q, x / n, n);
  }

  /** Adding the modulus does not change the remainder. */
  lemma ModShift(i: nat, n: nat)
    requires n > 0
    ensures (i + n) % n == i % n
  {
    assert i == (i / n) * n + i % n;
    assert i + n == (i / n + 1) * n + i % n;
    ModUnique(i + n, n, i / n + 1, i % n);
  }

  /** Two offsets less than `size` apart have different remainders. */
  lemma ModDistinct(iter: nat, size: nat, i: nat, j: nat)
    requires i < j < size
    ensures (iter + i) % size != (iter + j) % size
  {
    var a, b := iter + i, iter + j;
    assert a == (a / size) * size + a % size;
    assert b == (b / size) * size + b % size;
    MulGap(b / size, a / size, size);
  }

  /** Every remainder is reached from `iter` within `size` steps. */
  lemma ModReach(iter: nat, size: nat, j: nat) returns (k: nat)
    requires j < size
    ensures k < size && (iter + k) % size == j
  {
    var c := iter % size;
    var q := iter / size;
    assert iter == q * size + c;
    if c <= j {
      k := j - c;
      ModUnique(iter + k, size, q, j);
    } else {
      k := size - c + j;
      assert iter + k == (q + 1) * size + j;
      ModUnique(iter + k, size, q + 1, j);
    }
  }
}
