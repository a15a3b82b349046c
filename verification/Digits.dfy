/** Positional notation: least significant digit first, in any base. */
module Digits {
  import opened NttSpec
  import M = Modular

  type Byte = x: int | 0 <= x < 256

  predicate IsDigits(d: seq<int>, base: int) {
    forall i :: 0 <= i < |d| ==> 0 <= d[i] < base
  }

  lemma {:induction false} PowPositive(b: nat, e: nat)
    requires b >= 1
    ensures Pow(b, e) >= 1
  {
    if e > 0 {
      PowPositive(b, e - 1);
      M.ProductBound(1, 1, b, Pow(b, e - 1));
    }
  }

  lemma {:induction false} PowPow(x: int, a: nat, b: nat)
    ensures 0 <= a * b && Pow(Pow(x, a), b) == Pow(x, a * b)
    decreases b
  {
    if b == 0 {
    } else {
      PowPow(x, a, b - 1);
      assert a * b == a + a * (b - 1);
      PowAdd(x, a, a * (b - 1));
    }
  }

  /** A number of n digits is below base^n. */
  lemma {:induction false} ValueBound(d: seq<int>, base: nat)
    requires base >= 1 && IsDigits(d, base)
    ensures 0 <= Eval(d, base) < Pow(base, |d|)
  {
    if d == [] {
    } else {
      ValueBound(d[1..], base);
      var v, p := Eval(d[1..], base), Pow(base, |d| - 1);
      M.ProductBound(v, base, p - 1, base);
      assert (p - 1) * base == base * p - base;
      assert base * v == v * base;
    }
  }

  lemma ValueAppend(d: seq<int>, x: int, base: int)
    ensures Eval(d + [x], base) == Eval(d, base) + Pow(base, |d|) * x
  {
    EvalConcat(d, [x], base);
    assert [x][1..] == [];
    assert Eval([x], base) == x + base * 0;
  }

  /** The quotient and remainder by the base are the tail and the head. */
  lemma HeadAndTail(x: int, v: int, y: int, w: int, base: nat)
    requires 0 <= x < base && 0 <= y < base && x + base * v == y + base * w
    ensures x == y && v == w
  {
    assert base * (v - w) == y - x by { assert base * (v - w) == base * v - base * w; }
    M.Far(base, v - w);
  }

  /** Digits of a given length are determined by their value. */
  lemma {:induction false} ValueInjective(a: seq<int>, b: seq<int>, base: nat)
    requires |a| == |b| && IsDigits(a, base) && IsDigits(b, base) && Eval(a, base) == Eval(b, base)
    ensures a == b
  {
    if a != [] {
      HeadAndTail(a[0], Eval(a[1..], base), b[0], Eval(b[1..], base), base);
      ValueInjective(a[1..], b[1..], base);
      assert a == [a[0]] + a[1..] && b == [b[0]] + b[1..];
    }
  }

  // ---------------------------------------------------------------- bitwise or

  /** Bitwise or of two naturals. */
  function Or(x: nat, y: nat): nat
    decreases x
  {
    if x == 0 then y
    else (if x % 2 == 1 || y % 2 == 1 then 1 else 0) + 2 * Or(x / 2, y / 2)
  }

  /** Or of a number of s bits with a multiple of 2^s is their sum. */
  lemma {:induction false} OrDisjoint(x: nat, v: nat, s: nat)
    requires x < Pow(2, s)
    ensures 0 <= v * Pow(2, s) && Or(x, v * Pow(2, s)) == x + v * Pow(2, s)
    decreases s
  {
    PowPositive(2, s);
    M.ProductBound(v, 1, v, Pow(2, s));
    if x == 0 {
    } else {
      assert s > 0;
      var p := Pow(2, s - 1);
      assert v * (2 * p) == 2 * (v * p);
      OrDisjoint(x / 2, v, s - 1);
    }
  }

  // ---------------------------------------------------------------- regrouping digits

  /** Moving the low digit of an accumulator of weight w into place. */
  lemma Regroup(w: int, x: int, b: int, y: int)
    ensures w * (x + b * y) == w * x + (b * w) * y
  {
    M.Assoc(w, b, y);
    assert b * w == w * b;
  }

  /** Adding a value on top of an accumulator of weight w. */
  lemma Stack(w: int, acc: int, v: int, p: int)
    ensures w * (acc + v * p) == w * acc + (w * p) * v
  {
    M.Assoc(w, p, v);
    assert v * p == p * v;
  }

  lemma PowNext(b: int, e: nat)
    ensures Pow(b, e + 1) == b * Pow(b, e)
  {
  }

  /** The n lowest digits of v. */
  function OfValue(v: int, n: nat, base: nat): (d: seq<int>)
    requires base > 0
    ensures |d| == n
    decreases n
  {
    if n == 0 then [] else [v % base] + OfValue(v / base, n - 1, base)
  }

  lemma {:induction false} OfValueIsDigits(v: int, n: nat, base: nat)
    requires base > 0
    ensures IsDigits(OfValue(v, n, base), base)
    decreases n
  {
    if n > 0 {
      M.Reduce(v, base);
      OfValueIsDigits(v / base, n - 1, base);
    }
  }

  lemma {:induction false} ValueOfValue(v: int, n: nat, base: nat)
    requires base > 0 && 0 <= v < Pow(base, n)
    ensures Eval(OfValue(v, n, base), base) == v
    decreases n
  {
    if n == 0 {
    } else {
      assert v == v % base + base * (v / base);
      DigitBound(v, base, Pow(base, n - 1));
      ValueOfValue(v / base, n - 1, base);
      assert OfValue(v, n, base)[1..] == OfValue(v / base, n - 1, base);
    }
  }

  lemma DigitBound(v: int, b: nat, p: int)
    requires b > 0 && 0 <= v < b * p
    ensures 0 <= v / b < p
  {
    var d := v / b;
    assert v == b * d + v % b;
    if d >= p { M.ProductBound(b, p, b, d); }
    if d < 0 { M.Far(b, d); }
  }

  /** Converting d to a number and back. */
  lemma OfValueOfDigits(d: seq<int>, base: nat)
    requires base > 0 && IsDigits(d, base)
    ensures OfValue(Eval(d, base), |d|, base) == d
  {
    ValueBound(d, base);
    ValueOfValue(Eval(d, base), |d|, base);
    OfValueIsDigits(Eval(d, base), |d|, base);
    ValueInjective(OfValue(Eval(d, base), |d|, base), d, base);
  }

  /** The low digits stand for the remainder. */
  lemma {:induction false} DigitsModulo(v: nat, n: nat, base: nat)
    requires base > 0
    ensures Pow(base, n) > 0 && Eval(OfValue(v, n, base), base) == v % Pow(base, n)
    decreases n
  {
    PowPositive(base, n);
    if n == 0 {
    } else {
      PowPositive(base, n - 1);
      DigitsModulo(v / base, n - 1, base);
      var p := Pow(base, n - 1);
      assert OfValue(v, n, base)[1..] == OfValue(v / base, n - 1, base);
      LowDigits(v, base, p);
    }
  }

  lemma LowDigits(v: nat, b: nat, p: nat)
    requires b > 0 && p > 0
    ensures b * p > 0 && v % b + b * ((v / b) % p) == v % (b * p)
  {
    var q, r := v / b, v % b;
    var k, s := q / p, q % p;
    assert v == b * q + r && q == p * k + s;
    RegroupQuotient(v, b, p, q, r, k, s);
    M.ProductBound(b, 1, b, p);
    M.Multiple(v, b * s + r, k, b * p);
    M.Small(b * s + r, b * p);
  }

  lemma RegroupQuotient(v: int, b: int, p: int, q: int, r: int, k: int, s: int)
    requires v == b * q + r && q == p * k + s && 0 <= r < b && 0 <= s < p
    ensures v == b * s + r + k * (b * p) && 0 <= b * s + r < b * p
  {
    assert b * (p * k + s) == b * (p * k) + b * s;
    M.Assoc(b, p, k);
    M.ProductBound(b, s, b, p - 1);
    assert b * (p - 1) == b * p - b;
  }
}
