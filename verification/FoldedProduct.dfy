/**
 Products of digit strings that wrap around with a factor: where x^n = c, the terms that
 overflow come back multiplied by c. The negacyclic product has c = -1, the 17 limbs of
 Poly1305 have c = 320, the five limbs of Curve25519 have c = 19.
 */
module FoldedProduct {
  import opened NttSpec
  import M = Modular

  /** Place k of x^i times b. */
  function Shifted(b: seq<int>, i: nat, k: nat, c: int): int
    requires i <= |b| && k < |b|
  {
    if k >= i then b[k - i] else c * b[k - i + |b|]
  }

  /** Place k of the product, over the first m terms of a. */
  function Coef(a: seq<int>, b: seq<int>, k: nat, m: nat, c: int): int
    requires |a| == |b| && m <= |a| && k < |b|
    decreases m, |a|
  {
    if m == 0 then 0 else Coef(a, b, k, m - 1, c) + a[m - 1] * Shifted(b, m - 1, k, c)
  }

  function Product(a: seq<int>, b: seq<int>, c: int): (r: seq<int>)
    requires |a| == |b|
    ensures |r| == |a|
  {
    seq(|a|, k requires 0 <= k < |a| => Coef(a, b, k, |a|, c))
  }

  lemma EvalShifted(b: seq<int>, i: nat, c: int, x: int, q: nat)
    requires q > 0 && i <= |b| && Pow(x, |b|) % q == c % q
    ensures Eval(seq(|b|, k requires 0 <= k < |b| => Shifted(b, i, k, c)), x) % q == (Pow(x, i) * Eval(b, x)) % q
  {
    var n := |b|;
    var s := seq(n, k requires 0 <= k < n => Shifted(b, i, k, c));
    var head, tail := b[..n - i], b[n - i..];
    var low := seq(i, k requires 0 <= k < i => c * tail[k]);
    assert s == low + head;
    assert b == head + tail;
    EvalRotated(low, head, tail, c, x, q);
  }

  lemma EvalRotated(low: seq<int>, head: seq<int>, tail: seq<int>, c: int, x: int, q: nat)
    requires q > 0 && |low| == |tail| && forall i :: 0 <= i < |tail| ==> low[i] == c * tail[i]
    requires Pow(x, |head| + |tail|) % q == c % q
    ensures Eval(low + head, x) % q == (Pow(x, |tail|) * Eval(head + tail, x)) % q
  {
    hide Pow, Eval;
    EvalConcat(low, head, x);
    EvalConcat(head, tail, x);
    var zero := seq(|tail|, k => 0);
    EvalZero(zero, x);
    EvalSumExact(low, zero, c, tail, x);
    PowAdd(x, |tail|, |head|);
    var u, v, h, l := Pow(x, |tail|), Pow(x, |head|), Eval(head, x), Eval(tail, x);
    assert Eval(low, x) == c * l;
    RotateValue(u, v, Pow(x, |tail| + |head|), h, l, c, q);
    assert Eval(head + tail, x) == h + v * l;
    assert Eval(low + head, x) == c * l + u * h;
  }

  lemma RotateValue(u: int, v: int, w: int, h: int, l: int, c: int, q: nat)
    requires q > 0 && u * v == w && w % q == c % q
    ensures (u * (h + v * l)) % q == (c * l + u * h) % q
  {
    assert u * (h + v * l) == u * h + (u * v) * l;
    M.Mul(w, c, l, l, q);
    M.Add(u * h, u * h, w * l, c * l, q);
  }

  lemma {:induction false} EvalZero(a: seq<int>, x: int)
    requires forall i :: 0 <= i < |a| ==> a[i] == 0
    ensures Eval(a, x) == 0
  {
    if a != [] {
      EvalZero(a[1..], x);
    }
  }

  lemma {:induction false} EvalSumExact(c: seq<int>, a: seq<int>, s: int, b: seq<int>, x: int)
    requires |c| == |a| == |b| && forall i :: 0 <= i < |c| ==> c[i] == a[i] + s * b[i]
    ensures Eval(c, x) == Eval(a, x) + s * Eval(b, x)
  {
    if c != [] {
      EvalSumExact(c[1..], a[1..], s, b[1..], x);
      SumStep(a[0], b[0], Eval(a[1..], x), Eval(b[1..], x), s, x);
    }
  }

  lemma EvalConstant(a: seq<int>, x: int)
    requires |a| == 1
    ensures Eval(a, x) == a[0]
  {
    assert a[1..] == [];
    assert x * 0 == 0;
  }

  lemma {:induction false} EvalPartialProduct(a: seq<int>, b: seq<int>, m: nat, c: int, x: int, q: nat)
    requires q > 0 && |a| == |b| && m <= |a| && Pow(x, |b|) % q == c % q
    ensures Eval(seq(|a|, k requires 0 <= k < |a| => Coef(a, b, k, m, c)), x) % q == (Eval(a[..m], x) * Eval(b, x)) % q
  {
    var n := |a|;
    var p := seq(n, k requires 0 <= k < n => Coef(a, b, k, m, c));
    hide Pow, Shifted;
    if m == 0 {
      EvalZero(p, x);
    } else {
      var p' := seq(n, k requires 0 <= k < n => Coef(a, b, k, m - 1, c));
      var s := seq(n, k requires 0 <= k < n => Shifted(b, m - 1, k, c));
      EvalPartialProduct(a, b, m - 1, c, x, q);
      EvalShifted(b, m - 1, c, x, q);
      EvalSumExact(p, p', a[m - 1], s, x);
      assert a[..m] == a[..m - 1] + [a[m - 1]];
      EvalConcat(a[..m - 1], [a[m - 1]], x);
      EvalConstant([a[m - 1]], x);
      AddTerm(Eval(p', x), Eval(a[..m - 1], x), Pow(x, m - 1), a[m - 1], Eval(s, x), Eval(b, x), q);
    }
  }

  lemma AddTerm(p: int, v: int, w: int, c: int, s: int, e: int, q: nat)
    requires q > 0 && p % q == (v * e) % q && s % q == (w * e) % q
    ensures (p + c * s) % q == ((v + w * c) * e) % q
  {
    M.Scale(c, s, w * e, q);
    M.Add(p, v * e, c * s, c * (w * e), q);
    assert (v + w * c) * e == v * e + (w * c) * e;
    assert (w * c) * e == c * (w * e) by { M.Assoc(c, w, e); }
  }

  /** The product of the digits has the product of the values, where x^n is c. */
  lemma EvalProduct(a: seq<int>, b: seq<int>, c: int, x: int, q: nat)
    requires q > 0 && |a| == |b| && Pow(x, |b|) % q == c % q
    ensures Eval(Product(a, b, c), x) % q == (Eval(a, x) * Eval(b, x)) % q
  {
    hide Coef;
    EvalPartialProduct(a, b, |a|, c, x, q);
    assert a[..|a|] == a;
    assert Product(a, b, c) == seq(|a|, k requires 0 <= k < |a| => Coef(a, b, k, |a|, c));
  }
}
