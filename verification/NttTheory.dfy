/**
 What the transform means: it evaluates a polynomial at the roots of X^n + 1, it
 turns the schoolbook negacyclic product into a coefficient-wise one, and the
 inverse transform undoes it in both directions.
 */
module NttTheory {
  import opened NttSpec
  import F = FoldedProduct
  import M = Modular

  // ---------------------------------------------------------------- the tables

  /** The constant of node k: its block is reduced modulo X^size - NodeConst(k). */
  function NodeConst(zs: Twiddles, k: nat): int {
    if k <= 1 then -1 else if k % 2 == 0 then zs(k / 2) else -zs(k / 2)
  }

  /** The first `count` twiddle factors are square roots of their node constants. */
  ghost predicate SquareRoots(zs: Twiddles, count: nat, q: nat)
    requires q > 0
  {
    forall k :: 1 <= k < count ==> SquareRootAt(zs, k, q)
  }

  ghost predicate SquareRootAt(zs: Twiddles, k: nat, q: nat)
    requires q > 0
  {
    (zs(k) * zs(k)) % q == NodeConst(zs, k) % q
  }

  /** The first `count` inverse factors are inverses of the forward ones. */
  ghost predicate Inverses(zs: Twiddles, ys: Twiddles, count: nat, q: nat)
    requires q > 0
  {
    forall k :: 1 <= k < count ==> InverseAt(zs, ys, k, q)
  }

  ghost predicate InverseAt(zs: Twiddles, ys: Twiddles, k: nat, q: nat)
    requires q > 0
  {
    (zs(k) * ys(k)) % q == 1 % q
  }

  // ---------------------------------------------------------------- evaluation

  /** Leaf i below node k, t levels down. */
  function Leaf(k: nat, t: nat, i: nat): nat {
    k * Exp2(t) + i
  }

  lemma LeafBelow(k: nat, t: nat, i: nat)
    requires t > 0 && i < Exp2(t)
    ensures i < Exp2(t - 1) ==> Leaf(k, t, i) == Leaf(2 * k, t - 1, i)
    ensures i >= Exp2(t - 1) ==> Leaf(k, t, i) == Leaf(2 * k + 1, t - 1, i - Exp2(t - 1))
  {
    var e := Exp2(t - 1);
    assert k * (2 * e) == (2 * k) * e && (2 * k + 1) * e == (2 * k) * e + e;
  }

  lemma CountBelow(k: nat, t: nat, n: nat)
    requires t > 0 && k >= 1 && (k + 1) * Exp2(t) <= 2 * n
    ensures k < n
    ensures (2 * k + 1) * Exp2(t - 1) <= 2 * n && (2 * k + 1 + 1) * Exp2(t - 1) <= 2 * n
  {
    var e := Exp2(t - 1);
    assert (k + 1) * (2 * e) == (2 * k + 2) * e && (2 * k + 2) * e == (2 * k + 1) * e + e;
    assert (k + 1) * (2 * e) >= (k + 1) * 2 by {
      assert (k + 1) * (2 * e) - (k + 1) * 2 == (k + 1) * 2 * (e - 1);
    }
  }

  /** The constant of a child squares to the constant of its parent. */
  lemma ChildSquare(zs: Twiddles, k: nat, child: nat, n: nat, q: nat)
    requires q > 0 && 1 <= k < n && (child == 2 * k || child == 2 * k + 1) && SquareRoots(zs, n, q)
    ensures (NodeConst(zs, child) * NodeConst(zs, child)) % q == NodeConst(zs, k) % q
  {
    var z := zs(k);
    assert NodeConst(zs, child) == if child == 2 * k then z else -z;
    assert (-z) * (-z) == z * z;
    assert SquareRootAt(zs, k, q);
  }

  lemma SquareOfPower(r: int, e: nat, c: int, c2: int, q: nat)
    requires q > 0 && Pow(r, e) % q == c % q && (c * c) % q == c2 % q
    ensures Pow(r, 2 * e) % q == c2 % q
  {
    PowAdd(r, e, e);
    M.Mul(Pow(r, e), c, Pow(r, e), c, q);
  }

  /** The root attached to a leaf is a 2^t-th root of the constant of the node above it. */
  lemma {:induction false} RootPower(zs: Twiddles, k: nat, t: nat, i: nat, n: nat, q: nat)
    requires q > 0 && k >= 1 && i < Exp2(t) && (k + 1) * Exp2(t) <= 2 * n && SquareRoots(zs, n, q)
    ensures Pow(NodeConst(zs, Leaf(k, t, i)), Exp2(t)) % q == NodeConst(zs, k) % q
    decreases t
  {
    var r := NodeConst(zs, Leaf(k, t, i));
    if t == 0 {
      assert Leaf(k, t, i) == k;
      assert Pow(r, 1) == r * Pow(r, 0) == r;
    } else {
      var e := Exp2(t - 1);
      CountBelow(k, t, n);
      LeafBelow(k, t, i);
      var child := if i < e then 2 * k else 2 * k + 1;
      RootPower(zs, child, t - 1, if i < e then i else i - e, n, q);
      ChildSquare(zs, k, child, n, q);
      SquareOfPower(r, e, NodeConst(zs, child), NodeConst(zs, k), q);
    }
  }

  /** Reducing a modulo X^e - c does not change its value at an e-th root of c. */
  lemma EvalHalf(a: seq<int>, d: seq<int>, c: int, r: int, q: nat)
    requires q > 0 && |a| == 2 * |d|
    requires forall i :: 0 <= i < |d| ==> d[i] == (a[i] + c * a[i + |d|]) % q
    requires Pow(r, |d|) % q == c % q
    ensures Eval(d, r) % q == Eval(a, r) % q
  {
    hide Eval, Pow;
    var e := |d|;
    forall i | 0 <= i < e
      ensures d[i] % q == (a[..e][i] + c * a[e..][i]) % q
    {
      M.Reduce(a[i] + c * a[i + e], q);
    }
    EvalSum(d, a[..e], c, a[e..], r, q);
    var h := Eval(a[e..], r);
    M.Mul(Pow(r, e), c, h, h, q);
    M.Add(Eval(a[..e], r), Eval(a[..e], r), Pow(r, e) * h, c * h, q);
    assert a == a[..e] + a[e..];
    EvalConcat(a[..e], a[e..], r);
  }

  /** Output i of the complete transform is the value of the input at leaf root i. */
  lemma {:induction false} NttEvaluates(a: seq<int>, t: nat, k: nat, i: nat, zs: Twiddles, n: nat, q: nat)
    requires q > 0 && k >= 1 && i < Exp2(t) == |a| && (k + 1) * Exp2(t) <= 2 * n && SquareRoots(zs, n, q)
    ensures Ntt(a, 1, t, k, zs, q)[i] % q == Eval(a, NodeConst(zs, Leaf(k, t, i))) % q
    decreases t, 1
  {
    if t == 0 {
      F.EvalConstant(a, NodeConst(zs, Leaf(k, t, i)));
    } else {
      hide Ntt, Eval, Pow, Lo, Hi, Leaf, Size;
      HalfSize(1, t);
      CountBelow(k, t, n);
      LeafBelow(k, t, i);
      var e, z := Exp2(t - 1), zs(k);
      assert |a| == 2 * e && NodeConst(zs, 2 * k) == z && NodeConst(zs, 2 * k + 1) == -z;
      hide *;
      if i < e {
        ChildEvaluates(a, z, t - 1, 2 * k, i, zs, n, q);
        NttHalves(a, t, k, i, zs, q);
        assert Leaf(k, t, i) == Leaf(2 * k, t - 1, i);
      } else {
        HiIsLo(a, z, q);
        ChildEvaluates(a, -z, t - 1, 2 * k + 1, i - e, zs, n, q);
        NttHalves(a, t, k, i, zs, q);
        assert Leaf(k, t, i) == Leaf(2 * k + 1, t - 1, i - e);
      }
    }
  }

  /** The two halves of the output come from the two children. */
  lemma NttHalves(a: seq<int>, t: nat, k: nat, i: nat, zs: Twiddles, q: nat)
    requires q > 0 && t > 0 && i < Exp2(t) == |a|
    ensures |a| == 2 * Exp2(t - 1)
    ensures Ntt(a, 1, t, k, zs, q)[i] == if i < Exp2(t - 1)
      then Ntt(Lo(a, zs(k), q), 1, t - 1, 2 * k, zs, q)[i]
      else Ntt(Hi(a, zs(k), q), 1, t - 1, 2 * k + 1, zs, q)[i - Exp2(t - 1)]
  {
  }

  /** The transform of one half-size child block evaluates the whole block at the child's leaf roots. */
  lemma {:induction false} ChildEvaluates(a: seq<int>, c: int, t: nat, child: nat, i: nat, zs: Twiddles, n: nat, q: nat)
    requires q > 0 && child >= 1 && i < Exp2(t) && |a| == 2 * Exp2(t) && (child + 1) * Exp2(t) <= 2 * n
    requires SquareRoots(zs, n, q) && c == NodeConst(zs, child)
    ensures Ntt(Lo(a, c, q), 1, t, child, zs, q)[i] % q == Eval(a, NodeConst(zs, Leaf(child, t, i))) % q
    decreases t, 2
  {
    NttEvaluates(Lo(a, c, q), t, child, i, zs, n, q);
    RootPower(zs, child, t, i, n, q);
    EvalHalf(a, Lo(a, c, q), c, NodeConst(zs, Leaf(child, t, i)), q);
  }

  lemma HiIsLo(a: seq<int>, z: int, q: nat)
    requires q > 0 && |a| % 2 == 0
    ensures Hi(a, z, q) == Lo(a, -z, q)
  {
    var h := |a| / 2;
    forall i | 0 <= i < h
      ensures Hi(a, z, q)[i] == Lo(a, -z, q)[i]
    {
      assert (-z) * a[i + h] == -(z * a[i + h]);
    }
  }

  // ---------------------------------------------------------------- the negacyclic product

  /** Coefficient k of X^i * b modulo X^n + 1. */
  function Shifted(b: seq<int>, i: nat, k: nat): int
    requires i <= |b| && k < |b|
  {
    if k >= i then b[k - i] else -b[k - i + |b|]
  }

  /** The schoolbook sum for coefficient k of a * b mod X^n + 1, over the first m terms of a. */
  function ProductCoef(a: seq<int>, b: seq<int>, k: nat, m: nat): int
    requires |a| == |b| && m <= |a| && k < |b|
    decreases m, |a|
  {
    if m == 0 then 0 else ProductCoef(a, b, k, m - 1) + a[m - 1] * Shifted(b, m - 1, k)
  }

  /** The negacyclic product in Z_q[X]/(X^n + 1), by the schoolbook formula. */
  function Product(a: seq<int>, b: seq<int>, q: nat): (r: seq<int>)
    requires q > 0 && |a| == |b|
    ensures |r| == |a|
  {
    seq(|a|, k requires 0 <= k < |a| => ProductCoef(a, b, k, |a|) % q)
  }

  lemma {:induction false} CoefIsFolded(a: seq<int>, b: seq<int>, k: nat, m: nat)
    requires |a| == |b| && m <= |a| && k < |b|
    ensures ProductCoef(a, b, k, m) == F.Coef(a, b, k, m, -1)
    decreases m
  {
    if m > 0 {
      CoefIsFolded(a, b, k, m - 1);
      assert Shifted(b, m - 1, k) == F.Shifted(b, m - 1, k, -1);
    }
  }

  lemma EvalShifted(b: seq<int>, i: nat, x: int, q: nat)
    requires q > 0 && i <= |b| && Pow(x, |b|) % q == (-1) % q
    ensures Eval(seq(|b|, k requires 0 <= k < |b| => Shifted(b, i, k)), x) % q == (Pow(x, i) * Eval(b, x)) % q
  {
    hide Eval, Pow;
    F.EvalShifted(b, i, -1, x, q);
    assert seq(|b|, k requires 0 <= k < |b| => Shifted(b, i, k)) == seq(|b|, k requires 0 <= k < |b| => F.Shifted(b, i, k, -1));
  }

  /** At a root of X^n + 1 the negacyclic product evaluates to the product of the values. */
  lemma EvalProduct(a: seq<int>, b: seq<int>, x: int, q: nat)
    requires q > 0 && |a| == |b| && Pow(x, |b|) % q == (-1) % q
    ensures Eval(Product(a, b, q), x) % q == (Eval(a, x) * Eval(b, x)) % q
  {
    var n := |a|;
    var p := F.Product(a, b, -1);
    F.EvalProduct(a, b, -1, x, q);
    hide Eval, Pow;
    forall k | 0 <= k < n
      ensures Product(a, b, q)[k] % q == p[k] % q
    {
      CoefIsFolded(a, b, k, n);
      M.Reduce(p[k], q);
    }
    EvalCongruent(Product(a, b, q), p, x, q);
  }

  lemma EvalCongruent(c: seq<int>, a: seq<int>, x: int, q: nat)
    requires q > 0 && |c| == |a| && forall i :: 0 <= i < |c| ==> c[i] % q == a[i] % q
    ensures Eval(c, x) % q == Eval(a, x) % q
  {
    EvalSum(c, a, 0, a, x, q);
  }

  /** Coefficient-wise product. */
  function Pointwise(a: seq<int>, b: seq<int>, q: nat): (r: seq<int>)
    requires q > 0 && |a| == |b|
    ensures |r| == |a|
  {
    seq(|a|, i requires 0 <= i < |a| => (a[i] * b[i]) % q)
  }

  lemma ProductReduced(a: seq<int>, b: seq<int>, q: nat)
    requires q > 0 && |a| == |b|
    ensures Reduced(Product(a, b, q), q) && Reduced(Pointwise(a, b, q), q)
  {
  }

  /** The complete transform is a ring homomorphism from Z_q[X]/(X^n + 1). */
  lemma NttOfProduct(a: seq<int>, b: seq<int>, t: nat, zs: Twiddles, q: nat)
    requires q > 0 && |a| == |b| == Exp2(t) && SquareRoots(zs, Exp2(t), q)
    ensures Ntt(Product(a, b, q), 1, t, 1, zs, q) == Pointwise(Ntt(a, 1, t, 1, zs, q), Ntt(b, 1, t, 1, zs, q), q)
  {
    var n := Exp2(t);
    var c, u, v := Ntt(Product(a, b, q), 1, t, 1, zs, q), Ntt(a, 1, t, 1, zs, q), Ntt(b, 1, t, 1, zs, q);
    ProductReduced(a, b, q);
    NttReduced(Product(a, b, q), 1, t, 1, zs, q);
    forall i | 0 <= i < n
      ensures c[i] == (u[i] * v[i]) % q
    {
      var x := NodeConst(zs, Leaf(1, t, i));
      RootPower(zs, 1, t, i, n, q);
      NttEvaluates(Product(a, b, q), t, 1, i, zs, n, q);
      NttEvaluates(a, t, 1, i, zs, n, q);
      NttEvaluates(b, t, 1, i, zs, n, q);
      EvalProduct(a, b, x, q);
      M.Mul(u[i], Eval(a, x), v[i], Eval(b, x), q);
      M.Small(c[i], q);
    }
    assert c == Pointwise(u, v, q);
  }

  // ---------------------------------------------------------------- inversion

  /** d is s*a coefficient by coefficient, modulo q. */
  ghost predicate IsMultiple(d: seq<int>, s: int, a: seq<int>, q: nat)
    requires q > 0
  {
    |d| == |a| && forall i :: 0 <= i < |d| ==> d[i] % q == (s * a[i]) % q
  }

  /** One butterfly followed by its inverse doubles both inputs. */
  lemma Butterfly(l: int, h: int, lo: int, hi: int, x: int, x': int, z: int, y: int, s: int, q: nat)
    requires q > 0 && (z * y) % q == 1 % q
    requires lo % q == (s * ((x + z * x') % q)) % q && hi % q == (s * ((x - z * x') % q)) % q
    requires l == (lo + hi) % q && h == (y * (lo - hi)) % q
    ensures l % q == (2 * s * x) % q && h % q == (2 * s * x') % q
  {
    M.Reduce(lo + hi, q);
    M.Reduce(y * (lo - hi), q);
    var w := z * x';
    ButterflySum(lo, hi, x, w, s, q);
    M.Scale(y, lo - hi, 2 * s * w, q);
    assert y * (2 * s * w) == (2 * s * x') * (z * y);
    M.Scale(2 * s * x', z * y, 1, q);
  }

  lemma ButterflySum(lo: int, hi: int, x: int, w: int, s: int, q: nat)
    requires q > 0 && lo % q == (s * ((x + w) % q)) % q && hi % q == (s * ((x - w) % q)) % q
    ensures (lo + hi) % q == (2 * s * x) % q && (lo - hi) % q == (2 * s * w) % q
  {
    M.Reduce(x + w, q);
    M.Reduce(x - w, q);
    M.Scale(s, (x + w) % q, x + w, q);
    M.Scale(s, (x - w) % q, x - w, q);
    M.Add(lo, s * (x + w), hi, s * (x - w), q);
    SumAndDifference(s, x, w);
  }

  lemma SumAndDifference(s: int, x: int, w: int)
    ensures s * (x + w) + s * (x - w) == 2 * s * x && s * (x + w) - s * (x - w) == 2 * s * w
  {
    assert s * (x + w) == s * x + s * w && s * (x - w) == s * x - s * w;
    assert 2 * s * x == 2 * (s * x) && 2 * s * w == 2 * (s * w);
  }

  /** The unscaled inverse undoes the forward transform up to the factor 2^t. */
  lemma {:induction false} INttOfNtt(a: seq<int>, b: nat, t: nat, k: nat, zs: Twiddles, ys: Twiddles, n: nat, q: nat)
    requires q > 0 && k >= 1 && |a| == Size(b, t) && (k + 1) * Exp2(t) <= 2 * n && Inverses(zs, ys, n, q)
    ensures IsMultiple(INtt(Ntt(a, b, t, k, zs, q), b, t, k, ys, q), Exp2(t), a, q)
    decreases t
  {
    if t == 0 {
      assert forall i :: 0 <= i < |a| ==> 1 * a[i] == a[i];
    } else {
      HalfSize(b, t);
      CountBelow(k, t, n);
      assert InverseAt(zs, ys, k, q);
      var h, z, y, s := |a| / 2, zs(k), ys(k), Exp2(t - 1);
      var lo, hi := Lo(a, z, q), Hi(a, z, q);
      INttOfNtt(lo, b, t - 1, 2 * k, zs, ys, n, q);
      INttOfNtt(hi, b, t - 1, 2 * k + 1, zs, ys, n, q);
      var f := Ntt(a, b, t, k, zs, q);
      assert f[..h] == Ntt(lo, b, t - 1, 2 * k, zs, q) && f[h..] == Ntt(hi, b, t - 1, 2 * k + 1, zs, q);
      var l, r := INtt(f[..h], b, t - 1, 2 * k, ys, q), INtt(f[h..], b, t - 1, 2 * k + 1, ys, q);
      var m := INtt(f, b, t, k, ys, q);
      assert m == Merge(l, r, y, q);
      MergeOfSplit(a, l, r, z, y, s, q);
    }
  }

  lemma MergeOfSplit(a: seq<int>, l: seq<int>, r: seq<int>, z: int, y: int, s: int, q: nat)
    requires q > 0 && |a| % 2 == 0 && (z * y) % q == 1 % q
    requires IsMultiple(l, s, Lo(a, z, q), q) && IsMultiple(r, s, Hi(a, z, q), q)
    ensures IsMultiple(Merge(l, r, y, q), 2 * s, a, q)
  {
    var m, h := Merge(l, r, y, q), |a| / 2;
    forall i | 0 <= i < |a|
      ensures m[i] % q == (2 * s * a[i]) % q
    {
      var j := if i < h then i else i - h;
      Butterfly(m[j], m[j + h], l[j], r[j], a[j], a[j + h], z, y, s, q);
    }
  }

  /** Scaling passes through the forward transform. */
  lemma NttMultiple(d: seq<int>, s: int, a: seq<int>, b: nat, t: nat, k: nat, zs: Twiddles, q: nat)
    requires q > 0 && |d| == Size(b, t) && IsMultiple(d, s, a, q)
    ensures IsMultiple(Ntt(d, b, t, k, zs, q), s, Ntt(a, b, t, k, zs, q), q)
  {
    var zero := seq(|d|, i => 0);
    assert IsSum(d, zero, s, a, q);
    NttLinear(d, zero, s, a, b, t, k, zs, q);
    NttZero(zero, b, t, k, zs, q);
    DropZero(Ntt(d, b, t, k, zs, q), Ntt(zero, b, t, k, zs, q), s, Ntt(a, b, t, k, zs, q), q);
  }

  lemma DropZero(d: seq<int>, zero: seq<int>, s: int, a: seq<int>, q: nat)
    requires q > 0 && IsSum(d, zero, s, a, q) && forall i :: 0 <= i < |zero| ==> zero[i] == 0
    ensures IsMultiple(d, s, a, q)
  {
  }

  lemma {:induction false} NttZero(a: seq<int>, b: nat, t: nat, k: nat, zs: Twiddles, q: nat)
    requires q > 0 && |a| == Size(b, t) && forall i :: 0 <= i < |a| ==> a[i] == 0
    ensures forall i :: 0 <= i < |a| ==> Ntt(a, b, t, k, zs, q)[i] == 0
    decreases t
  {
    if t > 0 {
      HalfSize(b, t);
      M.Small(0, q);
      assert zs(k) * 0 == 0;
      NttZero(Lo(a, zs(k), q), b, t - 1, 2 * k, zs, q);
      NttZero(Hi(a, zs(k), q), b, t - 1, 2 * k + 1, zs, q);
    }
  }

  /** One inverse butterfly followed by the forward one doubles both inputs. */
  lemma InverseButterfly(l: int, r: int, z: int, y: int, q: nat)
    requires q > 0 && (z * y) % q == 1 % q
    ensures (((l + r) % q + z * ((y * (l - r)) % q)) % q) % q == (2 * l) % q
    ensures (((l + r) % q - z * ((y * (l - r)) % q)) % q) % q == (2 * r) % q
  {
    var c, d := (l + r) % q, (y * (l - r)) % q;
    M.Reduce(l + r, q); M.Reduce(y * (l - r), q);
    M.Reduce(c + z * d, q); M.Reduce(c - z * d, q);
    M.Scale(z, d, y * (l - r), q);
    assert z * (y * (l - r)) == (l - r) * (z * y);
    M.Scale(l - r, z * y, 1, q);
    M.Add(c, l + r, z * d, l - r, q);
  }

  /** The forward transform undoes the unscaled inverse up to the factor 2^t. */
  lemma {:induction false} NttOfINtt(a: seq<int>, b: nat, t: nat, k: nat, zs: Twiddles, ys: Twiddles, n: nat, q: nat)
    requires q > 0 && k >= 1 && |a| == Size(b, t) && (k + 1) * Exp2(t) <= 2 * n && Inverses(zs, ys, n, q)
    ensures IsMultiple(Ntt(INtt(a, b, t, k, ys, q), b, t, k, zs, q), Exp2(t), a, q)
    decreases t
  {
    if t == 0 {
      assert forall i :: 0 <= i < |a| ==> 1 * a[i] == a[i];
    } else {
      HalfSize(b, t);
      CountBelow(k, t, n);
      assert InverseAt(zs, ys, k, q);
      hide Ntt, INtt, Merge, Lo, Hi;
      var h, z, y, s := Size(b, t - 1), zs(k), ys(k), Exp2(t - 1);
      var l, r := INtt(a[..h], b, t - 1, 2 * k, ys, q), INtt(a[h..], b, t - 1, 2 * k + 1, ys, q);
      NttOfINtt(a[..h], b, t - 1, 2 * k, zs, ys, n, q);
      NttOfINtt(a[h..], b, t - 1, 2 * k + 1, zs, ys, n, q);
      INttUnfold(a, b, t, k, ys, q);
      NttOfMerge(a, l, r, s, b, t, k, zs, y, q);
    }
  }

  lemma NttOfMerge(a: seq<int>, l: seq<int>, r: seq<int>, s: int, b: nat, t: nat, k: nat, zs: Twiddles, y: int, q: nat)
    requires q > 0 && t > 0 && |a| == Size(b, t) && |l| == |r| == Size(b, t - 1) && Size(b, t) == 2 * Size(b, t - 1)
    requires (zs(k) * y) % q == 1 % q
    requires IsMultiple(Ntt(l, b, t - 1, 2 * k, zs, q), s, a[..|l|], q)
    requires IsMultiple(Ntt(r, b, t - 1, 2 * k + 1, zs, q), s, a[|l|..], q)
    ensures IsMultiple(Ntt(Merge(l, r, y, q), b, t, k, zs, q), 2 * s, a, q)
  {
    hide *;
    var m, z := Merge(l, r, y, q), zs(k);
    NttUnfold(m, b, t, k, zs, q);
    SplitOfMerge(l, r, z, y, q);
    DoubledNtt(Lo(m, z, q), l, Ntt(l, b, t - 1, 2 * k, zs, q), a[..|l|], s, b, t - 1, 2 * k, zs, q);
    DoubledNtt(Hi(m, z, q), r, Ntt(r, b, t - 1, 2 * k + 1, zs, q), a[|l|..], s, b, t - 1, 2 * k + 1, zs, q);
    MultipleConcat(Ntt(Lo(m, z, q), b, t - 1, 2 * k, zs, q), Ntt(Hi(m, z, q), b, t - 1, 2 * k + 1, zs, q), 2 * s, a, q);
  }

  lemma MultipleConcat(d: seq<int>, e: seq<int>, s: int, a: seq<int>, q: nat)
    requires q > 0 && |d| + |e| == |a| && IsMultiple(d, s, a[..|d|], q) && IsMultiple(e, s, a[|d|..], q)
    ensures IsMultiple(d + e, s, a, q)
  {
    forall i | 0 <= i < |a|
      ensures (d + e)[i] % q == (s * a[i]) % q
    {
      if i >= |d| {
        assert (d + e)[i] == e[i - |d|] && a[i] == a[|d|..][i - |d|];
      } else {
        assert (d + e)[i] == d[i] && a[i] == a[..|d|][i];
      }
    }
  }

  lemma SplitOfMerge(l: seq<int>, r: seq<int>, z: int, y: int, q: nat)
    requires q > 0 && |l| == |r| && (z * y) % q == 1 % q
    ensures IsMultiple(Lo(Merge(l, r, y, q), z, q), 2, l, q)
    ensures IsMultiple(Hi(Merge(l, r, y, q), z, q), 2, r, q)
  {
    var m := Merge(l, r, y, q);
    forall i | 0 <= i < |l|
      ensures Lo(m, z, q)[i] % q == (2 * l[i]) % q
      ensures Hi(m, z, q)[i] % q == (2 * r[i]) % q
    {
      InverseButterfly(l[i], r[i], z, y, q);
    }
  }

  lemma DoubledNtt(d: seq<int>, l: seq<int>, g: seq<int>, a: seq<int>, s: int,
                   b: nat, t: nat, k: nat, zs: Twiddles, q: nat)
    requires q > 0 && |d| == Size(b, t) && IsMultiple(d, 2, l, q)
    requires g == Ntt(l, b, t, k, zs, q) && IsMultiple(g, s, a, q)
    ensures IsMultiple(Ntt(d, b, t, k, zs, q), 2 * s, a, q)
  {
    NttMultiple(d, 2, l, b, t, k, zs, q);
    var f := Ntt(d, b, t, k, zs, q);
    forall i | 0 <= i < |f|
      ensures f[i] % q == (2 * s * a[i]) % q
    {
      DoubleScale(f[i], g[i], s, a[i], q);
    }
  }

  lemma DoubleScale(f: int, g: int, s: int, a: int, q: nat)
    requires q > 0 && f % q == (2 * g) % q && g % q == (s * a) % q
    ensures f % q == (2 * s * a) % q
  {
    M.Scale(2, g, s * a, q);
    assert 2 * (s * a) == 2 * s * a;
  }
}
