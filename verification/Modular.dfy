/** Congruences modulo a fixed positive modulus, stated as equality of remainders. */
module Modular {

  /** A non-zero multiple of m is at least m away from zero. */
  lemma Far(m: int, t: int)
    requires m > 0
    ensures t >= 1 ==> m * t >= m
    ensures t <= -1 ==> m * t <= -m
  {
  }

  lemma Multiple(x: int, y: int, k: int, m: int)
    requires m > 0 && x == y + k * m
    ensures x % m == y % m
  {
    var t := k - x / m + y / m;
    assert x % m - y % m == m * t;
    Far(m, t);
  }

  lemma Quotient(x: int, y: int, m: int) returns (k: int)
    requires m > 0 && x % m == y % m
    ensures x == y + k * m
  {
    k := x / m - y / m;
    assert k * m == m * (x / m) - m * (y / m);
  }

  lemma Small(x: int, m: int)
    requires 0 <= x < m
    ensures x % m == x
  {
    Far(m, x / m);
  }

  lemma Reduce(x: int, m: int)
    requires m > 0
    ensures 0 <= x % m < m && (x % m) % m == x % m
  {
    Small(x % m, m);
  }

  lemma Add(a: int, b: int, c: int, d: int, m: int)
    requires m > 0 && a % m == b % m && c % m == d % m
    ensures (a + c) % m == (b + d) % m
    ensures (a - c) % m == (b - d) % m
  {
    var k := Quotient(a, b, m);
    var l := Quotient(c, d, m);
    assert k * m + l * m == (k + l) * m && k * m - l * m == (k - l) * m;
    Multiple(a + c, b + d, k + l, m);
    Multiple(a - c, b - d, k - l, m);
  }

  lemma Expand(b: int, u: int, d: int, v: int)
    ensures (b + u) * (d + v) == b * d + b * v + u * d + u * v
  {
  }

  lemma Assoc(a: int, b: int, c: int)
    ensures a * (b * c) == (a * b) * c && a * (c * b) == (a * b) * c
  {
  }

  lemma Mul(a: int, b: int, c: int, d: int, m: int)
    requires m > 0 && a % m == b % m && c % m == d % m
    ensures (a * c) % m == (b * d) % m
  {
    var k := Quotient(a, b, m);
    var l := Quotient(c, d, m);
    Expand(b, k * m, d, l * m);
    Assoc(b, l, m);
    Assoc(k, d, m);
    Assoc(k, l * m, m);
    assert (b * l + k * d + k * (l * m)) * m == (b * l) * m + (k * d) * m + (k * (l * m)) * m;
    assert (k * m) * d == (k * d) * m && (k * m) * (l * m) == (k * (l * m)) * m by {
      Assoc(k, m, d);
      Assoc(k, m, l * m);
    }
    Multiple(a * c, b * d, b * l + k * d + k * (l * m), m);
  }

  /** Multiplying a congruence by a constant. */
  lemma Scale(s: int, a: int, b: int, m: int)
    requires m > 0 && a % m == b % m
    ensures (s * a) % m == (s * b) % m
  {
    Mul(s, s, a, b, m);
  }

  lemma ProductBound(a: int, b: int, c: int, d: int)
    requires 0 <= a <= c && 0 <= b <= d
    ensures 0 <= a * b <= c * d
  {
    assert a * b <= c * b by { assert (c - a) * b >= 0; }
    assert c * b <= c * d by { assert c * (d - b) >= 0; }
  }

  /** If w is minus an inverse of z then m - w is an inverse. */
  lemma NegatedInverse(z: int, w: int, m: int)
    requires m > 0 && (z * w) % m == (-1) % m
    ensures (z * (m - w)) % m == 1 % m
  {
    assert z * (m - w) == -(z * w) + z * m;
    Multiple(z * (m - w), -(z * w), z, m);
    Add(0, 0, z * w, -1, m);
  }

  /** Division undoes multiplication. */
  lemma QuotientExact(k: int, m: int)
    requires m > 0
    ensures (k * m) / m == k && (k * m) % m == 0
  {
    Multiple(k * m, 0, k, m);
    Small(0, m);
    var d := (k * m) / m - k;
    assert m * d == 0 by { assert (k * m) == m * ((k * m) / m) + (k * m) % m; }
    Far(m, d);
  }
}
