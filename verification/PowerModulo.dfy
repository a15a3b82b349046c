/** Square and multiply, for any modulus. */
module PowerModulo {
  import opened NttSpec
  import M = Modular

  lemma PowZero(x: int)
    ensures Pow(x, 0) == 1
  {
  }

  lemma PowCongruent(x: int, y: int, e: nat, q: nat)
    requires q > 0 && x % q == y % q
    ensures Pow(x, e) % q == Pow(y, e) % q
  {
    if e > 0 {
      PowCongruent(x, y, e - 1, q);
      M.Mul(x, y, Pow(x, e - 1), Pow(y, e - 1), q);
    }
  }

  lemma {:induction false} PowOfSquare(x: int, e: nat)
    ensures Pow(x * x, e) == Pow(x, 2 * e)
  {
    if e > 0 {
      PowOfSquare(x, e - 1);
      assert Pow(x, 2 * e) == x * (x * Pow(x, 2 * e - 2));
      assert x * (x * Pow(x, 2 * e - 2)) == (x * x) * Pow(x, 2 * e - 2);
    }
  }

  lemma HalvePower(base: int, exp: nat, q: nat)
    requires q > 0 && exp > 0
    ensures exp % 2 == 0 ==> Pow(base, exp) % q == Pow((base * base) % q, exp / 2) % q
    ensures exp % 2 == 1 ==> Pow(base, exp) % q == (base * Pow((base * base) % q, exp / 2)) % q
  {
    M.Reduce(base * base, q);
    PowCongruent((base * base) % q, base * base, exp / 2, q);
    PowOfSquare(base, exp / 2);
    M.Scale(base, Pow((base * base) % q, exp / 2), Pow(base * base, exp / 2), q);
  }

  lemma AbsorbFactor(r: int, b: int, p: int, h: int, q: nat)
    requires q > 0
    ensures p % q == h % q ==> (r * h) % q == (r * p) % q
    ensures p % q == (b * h) % q ==> ((r * b) % q * h) % q == (r * p) % q
  {
    if p % q == h % q {
      M.Scale(r, p, h, q);
    }
    if p % q == (b * h) % q {
      M.Scale(r, p, b * h, q);
      M.Reduce(r * b, q);
      M.Mul((r * b) % q, r * b, h, h, q);
      assert r * (b * h) == (r * b) * h;
    }
  }

  /** One round of square and multiply keeps result * base^exp. */
  lemma PowModStep(result: int, base: nat, exp: nat, q: nat)
    requires 0 <= result < q && base < q && exp > 0
    ensures 0 <= result * base <= q * q && 0 <= base * base <= q * q
    ensures var r := if exp % 2 == 1 then (result * base) % q else result;
      (r * Pow((base * base) % q, exp / 2)) % q == (result * Pow(base, exp)) % q
  {
    hide Pow;
    M.ProductBound(result, base, q, q);
    M.ProductBound(base, base, q, q);
    HalvePower(base, exp, q);
    AbsorbFactor(result, base, Pow(base, exp), Pow((base * base) % q, exp / 2), q);
  }

  /** Square and multiply. */
  method PowMod(base0: nat, exp0: nat, q: nat) returns (result: int)
    requires q > 1
    ensures 0 <= result < q && result == Pow(base0, exp0) % q
  {
    hide Pow;
    result := 1;
    var base, exp := base0 % q, exp0;
    M.Reduce(base0, q);
    PowCongruent(base, base0, exp0, q);
    while exp > 0
      invariant 0 <= result < q && 0 <= base < q
      invariant (result * Pow(base, exp)) % q == Pow(base0, exp0) % q
    {
      PowModStep(result, base, exp, q);
      M.Reduce(result * base, q);
      M.Reduce(base * base, q);
      if exp % 2 == 1 {
        result := (result * base) % q;
      }
      base := (base * base) % q;
      exp := exp / 2;
    }
    PowZero(base);
    M.Small(result, q);
  }
}
