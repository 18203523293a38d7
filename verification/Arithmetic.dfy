/** Facts about products, quotients and remainders. */
module Arithmetic {

  lemma Monotone(a: nat, b: nat, size: nat)
    requires a <= b
    ensures a * size <= b * size
  {}

  lemma Difference(a: nat, b: nat, size: nat)
    requires b <= a
    ensures (a - b) * size == a * size - b * size
  {}

  lemma Divide(i: nat, size: nat)
    requires size > 0
    ensures i == i / size * size + i % size && 0 <= i % size < size
  {}

  /** A number has one quotient and one remainder. */
  lemma Unique(q: nat, r: nat, q': nat, r': nat, size: nat)
    requires r < size && r' < size && q * size + r == q' * size + r'
    ensures q == q' && r == r'
  {
    Difference(q + 1, 1, size);
    Difference(q' + 1, 1, size);
    if q < q' {
      Monotone(q + 1, q', size);
    } else if q' < q {
      Monotone(q' + 1, q, size);
    }
  }

  lemma Quotient(i: nat, size: nat, q: nat, r: nat)
    requires r < size && i == q * size + r
    ensures i / size == q && i % size == r
  {
    Divide(i, size);
    Unique(i / size, i % size, q, r, size);
  }

  lemma Divided(i: nat, size: nat) returns (q: nat, r: nat)
    requires size > 0
    ensures i == q * size + r && r < size && r == i % size
  {
    q, r := i / size, i % size;
    Divide(i, size);
  }

  lemma ShiftedParts(x: nat, u: nat, size: nat, q: nat, r: nat, q': nat, r': nat, k: nat, l: nat)
    requires r < size && r' < size && l < size && u <= x
    requires x == q * size + r && x - u == q' * size + r' && u == k * size + l
    ensures r == r' <==> l == 0
  {
    if r == r' {
      if q < q' {
        Monotone(q, q', size);
        Unique(k, l, 0, 0, size);
      } else {
        Difference(q, q', size);
        Unique(k, l, q - q', 0, size);
      }
    }
    if l == 0 {
      Difference(q' + k, k, size);
      Unique(q, r, q' + k, r', size);
    }
  }

  /** Taking away `u` keeps the remainder exactly when `u` is a multiple. */
  lemma Shifted(x: nat, u: nat, size: nat)
    requires size > 0 && u <= x
    ensures (x - u) % size == x % size <==> u % size == 0
  {
    var q, r := Divided(x, size);
    var q', r' := Divided(x - u, size);
    var k, l := Divided(u, size);
    ShiftedParts(x, u, size, q, r, q', r', k, l);
  }

  /** Remainders modulo 256, as of a counter in one byte, keep the remainder modulo 4. */
  lemma Modulo4(n: nat)
    ensures n % 256 % 4 == n % 4
  {
    var q, r := n / 256, n % 256;
    assert n == 4 * (64 * q + r / 4) + r % 4;
    Quotient(n, 4, 64 * q + r / 4, r % 4);
  }

  /** Counting on in one byte. */
  lemma Modulo256(n: nat)
    ensures (n % 256 + 1) % 256 == (n + 1) % 256
  {
    var q, r := n / 256, n % 256;
    if r < 255 {
      Quotient(n + 1, 256, q, r + 1);
    } else {
      Quotient(n + 1, 256, q + 1, 0);
    }
  }
}
