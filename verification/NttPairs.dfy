/**
 The incomplete transform, which stops at blocks of two: it acts on the even and on the
 odd coefficients like a complete transform of half the length, so its outputs are the
 remainders modulo X^2 - c, and the negacyclic product becomes a product of such pairs.
 */
module NttPairs {
  import opened NttSpec
  import opened NttTheory
  import M = Modular

  /** The coefficients at even (p = 0) or odd (p = 1) places. */
  function Part(a: seq<int>, p: nat): (r: seq<int>)
    requires |a| % 2 == 0 && p < 2
    ensures |r| == |a| / 2
  {
    seq(|a| / 2, i requires 0 <= i < |a| / 2 => a[2 * i + p])
  }

  lemma {:induction false} PairSize(t: nat)
    ensures Size(2, t) == 2 * Size(1, t)
  {
    if t > 0 {
      PairSize(t - 1);
    }
  }

  lemma PartAt(a: seq<int>, p: nat, i: nat)
    requires |a| % 2 == 0 && p < 2 && i < |a| / 2
    ensures 2 * i + p < |a| && Part(a, p)[i] == a[2 * i + p]
  {
  }

  lemma LoAt(a: seq<int>, z: int, q: nat, i: nat)
    requires q > 0 && |a| % 2 == 0 && i < |a| / 2
    ensures Lo(a, z, q)[i] == (a[i] + z * a[i + |a| / 2]) % q
  {
  }

  lemma PartOfLo(a: seq<int>, z: int, p: nat, q: nat)
    requires q > 0 && |a| % 4 == 0 && p < 2
    ensures Part(Lo(a, z, q), p) == Lo(Part(a, p), z, q)
  {
    hide Lo, Part;
    var h := |a| / 4;
    assert |a| == 4 * h;
    forall i | 0 <= i < h
      ensures Part(Lo(a, z, q), p)[i] == Lo(Part(a, p), z, q)[i]
    {
      PartAt(Lo(a, z, q), p, i);
      PartAt(a, p, i);
      PartAt(a, p, i + h);
      LoAt(a, z, q, 2 * i + p);
      LoAt(Part(a, p), z, q, i);
    }
  }

  lemma PartOfHalves(a: seq<int>, z: int, p: nat, q: nat)
    requires q > 0 && |a| % 4 == 0 && p < 2
    ensures Part(Lo(a, z, q), p) == Lo(Part(a, p), z, q)
    ensures Part(Hi(a, z, q), p) == Hi(Part(a, p), z, q)
  {
    hide Lo, Hi, Part;
    PartOfLo(a, z, p, q);
    PartOfLo(a, -z, p, q);
    HiIsLo(a, z, q);
    HiIsLo(Part(a, p), z, q);
  }

  lemma PartConcat(a: seq<int>, b: seq<int>, p: nat)
    requires |a| % 2 == 0 && |b| % 2 == 0 && p < 2
    ensures Part(a + b, p) == Part(a, p) + Part(b, p)
  {
  }

  /** The transform works on the even and on the odd places separately. */
  lemma {:induction false} NttParts(a: seq<int>, t: nat, k: nat, p: nat, zs: Twiddles, q: nat)
    requires q > 0 && |a| == Size(2, t) && p < 2
    ensures |a| == 2 * Size(1, t)
    ensures Part(Ntt(a, 2, t, k, zs, q), p) == Ntt(Part(a, p), 1, t, k, zs, q)
    decreases t
  {
    PairSize(t);
    hide Lo, Hi, Part;
    if t > 0 {
      PairSize(t - 1);
      NttUnfold(a, 2, t, k, zs, q);
      NttUnfold(Part(a, p), 1, t, k, zs, q);
      hide Ntt;
      PartOfHalves(a, zs(k), p, q);
      NttParts(Lo(a, zs(k), q), t - 1, 2 * k, p, zs, q);
      NttParts(Hi(a, zs(k), q), t - 1, 2 * k + 1, p, zs, q);
      PartConcat(Ntt(Lo(a, zs(k), q), 2, t - 1, 2 * k, zs, q), Ntt(Hi(a, zs(k), q), 2, t - 1, 2 * k + 1, zs, q), p);
    }
  }

  // ---------------------------------------------------------------- the product, by parts

  /** X^2 times the odd part: it lands on the even places. */
  function Rotated(b: seq<int>): (r: seq<int>)
    requires |b| > 0
    ensures |r| == |b|
  {
    seq(|b|, k requires 0 <= k < |b| => Shifted(b, 1, k))
  }

  lemma ShiftedParts(b: seq<int>, i: nat, k: nat)
    requires |b| % 2 == 0 && i < |b| / 2 && k < |b| / 2
    ensures Shifted(b, 2 * i, 2 * k) == Shifted(Part(b, 0), i, k)
    ensures Shifted(b, 2 * i + 1, 2 * k) == Shifted(Rotated(Part(b, 1)), i, k)
    ensures Shifted(b, 2 * i, 2 * k + 1) == Shifted(Part(b, 1), i, k)
    ensures Shifted(b, 2 * i + 1, 2 * k + 1) == Shifted(Part(b, 0), i, k)
  {
  }

  lemma {:induction false} ProductByParts(a: seq<int>, b: seq<int>, k: nat, m: nat)
    requires |a| == |b| && |a| % 2 == 0 && m <= |a| / 2 && k < |a| / 2
    ensures ProductCoef(a, b, 2 * k, 2 * m) == ProductCoef(Part(a, 0), Part(b, 0), k, m) + ProductCoef(Part(a, 1), Rotated(Part(b, 1)), k, m)
    ensures ProductCoef(a, b, 2 * k + 1, 2 * m) == ProductCoef(Part(a, 0), Part(b, 1), k, m) + ProductCoef(Part(a, 1), Part(b, 0), k, m)
    decreases m
  {
    hide Shifted, Rotated, Part;
    if m > 0 {
      var i := m - 1;
      ProductByParts(a, b, k, i);
      ShiftedParts(b, i, k);
      TwoTerms(a, b, 2 * k, i);
      TwoTerms(a, b, 2 * k + 1, i);
      PartAt(a, 0, i);
      PartAt(a, 1, i);
    }
  }

  lemma TwoTerms(a: seq<int>, b: seq<int>, k: nat, i: nat)
    requires |a| == |b| && 2 * i + 2 <= |a| && k < |b|
    ensures ProductCoef(a, b, k, 2 * (i + 1)) == ProductCoef(a, b, k, 2 * i) + a[2 * i] * Shifted(b, 2 * i, k) + a[2 * i + 1] * Shifted(b, 2 * i + 1, k)
  {
    hide Shifted;
    assert ProductCoef(a, b, k, 2 * i + 2) == ProductCoef(a, b, k, 2 * i + 1) + a[2 * i + 1] * Shifted(b, 2 * i + 1, k);
  }

  lemma ProductAt(a: seq<int>, b: seq<int>, k: nat, q: nat)
    requires q > 0 && |a| == |b| && k < |a|
    ensures Product(a, b, q)[k] == ProductCoef(a, b, k, |a|) % q
  {
  }

  /** Both parts of a product are sums of two products of parts. */
  lemma PartsOfProductAt(a: seq<int>, b: seq<int>, k: nat, q: nat)
    requires q > 0 && |a| == |b| && |a| % 2 == 0 && k < |a| / 2
    ensures Part(Product(a, b, q), 0)[k] % q == (Product(Part(a, 0), Part(b, 0), q)[k] + 1 * Product(Part(a, 1), Rotated(Part(b, 1)), q)[k]) % q
    ensures Part(Product(a, b, q), 1)[k] % q == (Product(Part(a, 0), Part(b, 1), q)[k] + 1 * Product(Part(a, 1), Part(b, 0), q)[k]) % q
  {
    hide *;
    var h := |a| / 2;
    assert 2 * h == |a|;
    ProductByParts(a, b, k, h);
    PartAt(Product(a, b, q), 0, k);
    PartAt(Product(a, b, q), 1, k);
    ProductAt(a, b, 2 * k, q);
    ProductAt(a, b, 2 * k + 1, q);
    ProductAt(Part(a, 0), Part(b, 0), k, q);
    ProductAt(Part(a, 1), Rotated(Part(b, 1)), k, q);
    ProductAt(Part(a, 0), Part(b, 1), k, q);
    ProductAt(Part(a, 1), Part(b, 0), k, q);
    SumModulo(ProductCoef(Part(a, 0), Part(b, 0), k, h), ProductCoef(Part(a, 1), Rotated(Part(b, 1)), k, h), q);
    SumModulo(ProductCoef(Part(a, 0), Part(b, 1), k, h), ProductCoef(Part(a, 1), Part(b, 0), k, h), q);
  }

  lemma PartsOfProduct(a: seq<int>, b: seq<int>, q: nat)
    requires q > 0 && |a| == |b| && |a| % 2 == 0 && |a| > 0
    ensures IsSum(Part(Product(a, b, q), 0), Product(Part(a, 0), Part(b, 0), q), 1, Product(Part(a, 1), Rotated(Part(b, 1)), q), q)
    ensures IsSum(Part(Product(a, b, q), 1), Product(Part(a, 0), Part(b, 1), q), 1, Product(Part(a, 1), Part(b, 0), q), q)
  {
    hide Product, Part, Rotated;
    forall k | 0 <= k < |a| / 2
      ensures Part(Product(a, b, q), 0)[k] % q == (Product(Part(a, 0), Part(b, 0), q)[k] + 1 * Product(Part(a, 1), Rotated(Part(b, 1)), q)[k]) % q
      ensures Part(Product(a, b, q), 1)[k] % q == (Product(Part(a, 0), Part(b, 1), q)[k] + 1 * Product(Part(a, 1), Part(b, 0), q)[k]) % q
    {
      PartsOfProductAt(a, b, k, q);
    }
  }

  lemma SumModulo(x: int, y: int, q: nat)
    requires q > 0
    ensures ((x + y) % q) % q == (x % q + 1 * (y % q)) % q
  {
    M.Reduce(x + y, q);
    M.Reduce(x, q);
    M.Reduce(y, q);
    M.Add(x, x % q, y, y % q, q);
  }

  // ---------------------------------------------------------------- pairs

  /** The product of a0 + a1 X and b0 + b1 X modulo X^2 - g, as `ntt_mul` computes it. */
  function EvenOf(a0: int, a1: int, b0: int, b1: int, g: int, q: nat): (r: int)
    requires q > 0
    ensures 0 <= r < q
  {
    M.Reduce(a0 * b0 + (a1 * b1) % q * g, q);
    (a0 * b0 + (a1 * b1) % q * g) % q
  }

  function OddOf(a0: int, a1: int, b0: int, b1: int, q: nat): (r: int)
    requires q > 0
    ensures 0 <= r < q
  {
    M.Reduce(a0 * b1 + a1 * b0, q);
    (a0 * b1 + a1 * b0) % q
  }

  /** The products of corresponding pairs, modulo X^2 - g(i). */
  function PairProduct(a: seq<int>, b: seq<int>, g: nat -> int, q: nat): (r: seq<int>)
    requires q > 0 && |a| == |b| && |a| % 2 == 0
    ensures |r| == |a|
  {
    seq(|a|, j requires 0 <= j < |a| =>
      if j % 2 == 0 then EvenOf(a[j], a[j + 1], b[j], b[j + 1], g(j / 2), q)
      else OddOf(a[j - 1], a[j], b[j - 1], b[j], q))
  }

  lemma PairProductReduced(a: seq<int>, b: seq<int>, g: nat -> int, q: nat)
    requires q > 0 && |a| == |b| && |a| % 2 == 0
    ensures Reduced(PairProduct(a, b, g, q), q)
  {
    hide EvenOf, OddOf;
    forall j | 0 <= j < |a|
      ensures 0 <= PairProduct(a, b, g, q)[j] < q
    {
      if j % 2 == 0 {
        assert PairProduct(a, b, g, q)[j] == EvenOf(a[j], a[j + 1], b[j], b[j + 1], g(j / 2), q);
      } else {
        assert PairProduct(a, b, g, q)[j] == OddOf(a[j - 1], a[j], b[j - 1], b[j], q);
      }
    }
  }

  /** The value of X^2 times b at a root of X^n + 1. */
  lemma EvalRotatedPart(b: seq<int>, x: int, q: nat)
    requires q > 0 && |b| > 0 && Pow(x, |b|) % q == (-1) % q
    ensures Eval(Rotated(b), x) % q == (x * Eval(b, x)) % q
  {
    hide Eval, Shifted;
    EvalShifted(b, 1, x, q);
    assert Pow(x, 1) == x * Pow(x, 0) == x;
    assert Rotated(b) == seq(|b|, k requires 0 <= k < |b| => Shifted(b, 1, k));
  }

  /** Both parts of the product at a root x. */
  lemma EvalParts(a: seq<int>, b: seq<int>, x: int, q: nat)
    requires q > 0 && |a| == |b| && |a| % 2 == 0 && |a| > 0 && Pow(x, |a| / 2) % q == (-1) % q
    ensures var ae, ao, be, bo := Eval(Part(a, 0), x), Eval(Part(a, 1), x), Eval(Part(b, 0), x), Eval(Part(b, 1), x);
      && Eval(Part(Product(a, b, q), 0), x) % q == (ae * be + x * (ao * bo)) % q
      && Eval(Part(Product(a, b, q), 1), x) % q == (ae * bo + ao * be) % q
  {
    var a0, a1, b0, b1 := Part(a, 0), Part(a, 1), Part(b, 0), Part(b, 1);
    PartsOfProduct(a, b, q);
    EvalRotatedPart(b1, x, q);
    EvalProduct(a0, b0, x, q);
    EvalProduct(a1, Rotated(b1), x, q);
    EvalProduct(a0, b1, x, q);
    EvalProduct(a1, b0, x, q);
    EvalSum(Part(Product(a, b, q), 0), Product(a0, b0, q), 1, Product(a1, Rotated(b1), q), x, q);
    EvalSum(Part(Product(a, b, q), 1), Product(a0, b1, q), 1, Product(a1, b0, q), x, q);
    hide *;
    var ae, ao, be, bo := Eval(a0, x), Eval(a1, x), Eval(b0, x), Eval(b1, x);
    EvenValue(Eval(Part(Product(a, b, q), 0), x), Eval(Product(a0, b0, q), x), Eval(Product(a1, Rotated(b1), q), x), ae, be, ao, Eval(Rotated(b1), x), bo, x, q);
    M.Add(Eval(Product(a0, b1, q), x), ae * bo, Eval(Product(a1, b0, q), x), ao * be, q);
  }

  lemma EvenValue(v: int, p: int, s: int, ae: int, be: int, ao: int, r: int, bo: int, x: int, q: nat)
    requires q > 0 && v % q == (p + 1 * s) % q && p % q == (ae * be) % q && s % q == (ao * r) % q && r % q == (x * bo) % q
    ensures v % q == (ae * be + x * (ao * bo)) % q
  {
    M.Scale(ao, r, x * bo, q);
    assert ao * (x * bo) == x * (ao * bo);
    M.Add(p, ae * be, s, x * (ao * bo), q);
  }

  /** The pair at leaf i evaluates the even and the odd part at the leaf's root. */
  lemma PairEvaluates(a: seq<int>, t: nat, i: nat, zs: Twiddles, q: nat)
    requires q > 0 && |a| == Size(2, t) && i < Exp2(t) && SquareRoots(zs, Exp2(t), q)
    ensures |a| == 2 * Exp2(t)
    ensures var f, x := Ntt(a, 2, t, 1, zs, q), NodeConst(zs, Leaf(1, t, i));
      f[2 * i] % q == Eval(Part(a, 0), x) % q && f[2 * i + 1] % q == Eval(Part(a, 1), x) % q
  {
    hide *;
    PairSizes(t);
    NttParts(a, t, 1, 0, zs, q);
    NttParts(a, t, 1, 1, zs, q);
    NttEvaluates(Part(a, 0), t, 1, i, zs, Exp2(t), q);
    NttEvaluates(Part(a, 1), t, 1, i, zs, Exp2(t), q);
    var f := Ntt(a, 2, t, 1, zs, q);
    PartAt(f, 0, i);
    PartAt(f, 1, i);
  }

  lemma PairSizes(t: nat)
    ensures Size(2, t) == 2 * Exp2(t) && Exp2(t) == Size(1, t) && Size(2, t) % 2 == 0 && (1 + 1) * Exp2(t) <= 2 * Exp2(t)
  {
    PairSize(t);
  }

  lemma PairAt(c0: int, c1: int, e0: int, e1: int, u0: int, u1: int, v0: int, v1: int, ae: int, ao: int, be: int, bo: int, x: int, g: int, q: nat)
    requires q > 0 && c0 % q == e0 % q && c1 % q == e1 % q
    requires e0 % q == (ae * be + x * (ao * bo)) % q && e1 % q == (ae * bo + ao * be) % q
    requires u0 % q == ae % q && u1 % q == ao % q && v0 % q == be % q && v1 % q == bo % q && g % q == x % q
    requires 0 <= c0 < q && 0 <= c1 < q
    ensures c0 == EvenOf(u0, u1, v0, v1, g, q) && c1 == OddOf(u0, u1, v0, v1, q)
  {
    M.Mul(u0, ae, v0, be, q);
    M.Mul(u1, ao, v1, bo, q);
    M.Mul(u0, ae, v1, bo, q);
    M.Mul(u1, ao, v0, be, q);
    M.Reduce(u1 * v1, q);
    M.Mul((u1 * v1) % q, ao * bo, g, x, q);
    assert (ao * bo) * x == x * (ao * bo);
    M.Add(u0 * v0, ae * be, (u1 * v1) % q * g, x * (ao * bo), q);
    M.Add(u0 * v1, ae * bo, u1 * v0, ao * be, q);
    M.Small(c0, q);
    M.Small(c1, q);
  }

  /** g gives the constants of the leaves. */
  ghost predicate LeafConstants(g: nat -> int, zs: Twiddles, t: nat, q: nat)
    requires q > 0
  {
    forall i: nat :: i < Exp2(t) ==> LeafConstantAt(g, zs, t, i, q)
  }

  ghost predicate LeafConstantAt(g: nat -> int, zs: Twiddles, t: nat, i: nat, q: nat)
    requires q > 0
  {
    g(i) % q == NodeConst(zs, Leaf(1, t, i)) % q
  }

  /** At the root of a leaf, the product of two values by parts. */
  lemma LeafValues(a: seq<int>, b: seq<int>, t: nat, i: nat, zs: Twiddles, g: nat -> int, q: nat)
    requires q > 0 && |a| == |b| == Size(2, t) && i < Exp2(t) && SquareRoots(zs, Exp2(t), q) && LeafConstants(g, zs, t, q)
    ensures |a| == 2 * Exp2(t) && |a| % 2 == 0 && |a| > 0
    ensures var x := NodeConst(zs, Leaf(1, t, i)); g(i) % q == x % q && Pow(x, |a| / 2) % q == (-1) % q
  {
    PairSize(t);
    RootPower(zs, 1, t, i, Exp2(t), q);
    assert LeafConstantAt(g, zs, t, i, q);
    assert NodeConst(zs, 1) == -1;
  }

  lemma ProductPair(a: seq<int>, b: seq<int>, t: nat, i: nat, zs: Twiddles, g: nat -> int, q: nat)
    requires q > 0 && |a| == |b| == Size(2, t) && i < Exp2(t) && SquareRoots(zs, Exp2(t), q) && LeafConstants(g, zs, t, q)
    requires |a| == 2 * Exp2(t) && Reduced(Ntt(Product(a, b, q), 2, t, 1, zs, q), q)
    ensures var c, d := Ntt(Product(a, b, q), 2, t, 1, zs, q), PairProduct(Ntt(a, 2, t, 1, zs, q), Ntt(b, 2, t, 1, zs, q), g, q);
      c[2 * i] == d[2 * i] && c[2 * i + 1] == d[2 * i + 1]
  {
    hide *;
    var p := Product(a, b, q);
    PairEvaluates(a, t, i, zs, q);
    PairEvaluates(b, t, i, zs, q);
    PairEvaluates(p, t, i, zs, q);
    LeafValues(a, b, t, i, zs, g, q);
    var x := NodeConst(zs, Leaf(1, t, i));
    EvalParts(a, b, x, q);
    var c, u, v := Ntt(p, 2, t, 1, zs, q), Ntt(a, 2, t, 1, zs, q), Ntt(b, 2, t, 1, zs, q);
    ReducedAt(c, q, 2 * i);
    ReducedAt(c, q, 2 * i + 1);
    PairAt(c[2 * i], c[2 * i + 1], Eval(Part(p, 0), x), Eval(Part(p, 1), x), u[2 * i], u[2 * i + 1], v[2 * i], v[2 * i + 1],
           Eval(Part(a, 0), x), Eval(Part(a, 1), x), Eval(Part(b, 0), x), Eval(Part(b, 1), x), x, g(i), q);
    PairProductAt(u, v, i, g, q);
  }

  lemma ReducedAt(a: seq<int>, q: nat, i: nat)
    requires Reduced(a, q) && i < |a|
    ensures 0 <= a[i] < q
  {
  }

  lemma PairProductAt(u: seq<int>, v: seq<int>, i: nat, g: nat -> int, q: nat)
    requires q > 0 && |u| == |v| && |u| % 2 == 0 && 2 * i + 1 < |u|
    ensures PairProduct(u, v, g, q)[2 * i] == EvenOf(u[2 * i], u[2 * i + 1], v[2 * i], v[2 * i + 1], g(i), q)
    ensures PairProduct(u, v, g, q)[2 * i + 1] == OddOf(u[2 * i], u[2 * i + 1], v[2 * i], v[2 * i + 1], q)
  {
    hide EvenOf, OddOf;
    assert (2 * i) / 2 == i && (2 * i + 1) % 2 == 1;
  }

  /** The incomplete transform turns the negacyclic product into products of pairs. */
  lemma NttOfPairProduct(a: seq<int>, b: seq<int>, t: nat, zs: Twiddles, g: nat -> int, q: nat)
    requires q > 0 && |a| == |b| == Size(2, t) && SquareRoots(zs, Exp2(t), q) && LeafConstants(g, zs, t, q)
    ensures Size(2, t) == 2 * Exp2(t)
    ensures Ntt(Product(a, b, q), 2, t, 1, zs, q) == PairProduct(Ntt(a, 2, t, 1, zs, q), Ntt(b, 2, t, 1, zs, q), g, q)
  {
    PairSize(t);
    ProductReduced(a, b, q);
    NttReduced(Product(a, b, q), 2, t, 1, zs, q);
    hide Ntt, Product, PairProduct, SquareRoots, LeafConstants;
    var c, d := Ntt(Product(a, b, q), 2, t, 1, zs, q), PairProduct(Ntt(a, 2, t, 1, zs, q), Ntt(b, 2, t, 1, zs, q), g, q);
    forall j | 0 <= j < |c|
      ensures c[j] == d[j]
    {
      ProductPair(a, b, t, j / 2, zs, g, q);
      assert j == 2 * (j / 2) || j == 2 * (j / 2) + 1;
    }
  }
}
