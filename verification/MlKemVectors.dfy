/**
 Vectors of three polynomials, and the equation behind decryption: what comes out is the
 encoded message plus a noise polynomial made of the secret, the errors and the rounding.
 */
module MlKemVectors {
  import opened NttSpec
  import opened NttLoops
  import opened NttPairs
  import opened MlKemNtt
  import opened MlKemCodec
  import NttTheory
  import M = Modular

  const K: nat := 3

  predicate IsVector(v: seq<seq<int>>) {
    |v| == K && forall i :: 0 <= i < K ==> IsPoly(v[i])
  }

  predicate IsMatrix(a: seq<seq<seq<int>>>) {
    |a| == K && forall i :: 0 <= i < K ==> IsVector(a[i])
  }

  // ---------------------------------------------------------------- polynomials

  function PolyAdd(a: seq<int>, b: seq<int>): (c: seq<int>)
    requires |a| == |b| == N
    ensures IsPoly(c)
  {
    seq(N, i requires 0 <= i < N => (a[i] + b[i]) % Q)
  }

  function PolySub(a: seq<int>, b: seq<int>): (c: seq<int>)
    requires |a| == |b| == N
    ensures IsPoly(c)
  {
    seq(N, i requires 0 <= i < N => (a[i] - b[i]) % Q)
  }

  function Zero(): (c: seq<int>)
    ensures IsPoly(c)
  {
    seq(N, i => 0)
  }

  function Hat(f: seq<int>): (r: seq<int>)
    requires IsPoly(f)
    ensures IsPoly(r)
  {
    NttFunReduced(f);
    NttFun(f)
  }

  function Unhat(f: seq<int>): (r: seq<int>)
    requires IsPoly(f)
    ensures IsPoly(r)
  {
    InvNttReduced(f);
    InvNttFun(f)
  }

  function Times(a: seq<int>, b: seq<int>): (r: seq<int>)
    requires IsPoly(a) && IsPoly(b)
    ensures IsPoly(r)
  {
    PairsReduced(a, b);
    PairsFun(a, b)
  }

  /** The schoolbook product in Z_q[X]/(X^256 + 1). */
  function Convolve(a: seq<int>, b: seq<int>): (r: seq<int>)
    requires IsPoly(a) && IsPoly(b)
    ensures IsPoly(r)
  {
    NttTheory.ProductReduced(a, b, Q);
    NttTheory.Product(a, b, Q)
  }

  function HatAll(v: seq<seq<int>>): (r: seq<seq<int>>)
    requires IsVector(v)
    ensures IsVector(r)
  {
    seq(K, i requires 0 <= i < K => Hat(v[i]))
  }

  /** The first m terms of a sum of products in the transformed domain, from zero. */
  function DotUpTo(a: seq<seq<int>>, b: seq<seq<int>>, m: nat): (r: seq<int>)
    requires IsVector(a) && IsVector(b) && m <= K
    ensures IsPoly(r)
    decreases m, |a|
  {
    if m == 0 then Zero() else PolyAdd(DotUpTo(a, b, m - 1), Times(a[m - 1], b[m - 1]))
  }

  function Dot(a: seq<seq<int>>, b: seq<seq<int>>): (r: seq<int>)
    requires IsVector(a) && IsVector(b)
    ensures IsPoly(r)
  {
    DotUpTo(a, b, K)
  }

  /** The same sum of schoolbook products. */
  function ConvolveAll(a: seq<seq<int>>, b: seq<seq<int>>): (r: seq<int>)
    requires IsVector(a) && IsVector(b)
    ensures IsPoly(r)
  {
    PolyAdd(PolyAdd(PolyAdd(Zero(), Convolve(a[0], b[0])), Convolve(a[1], b[1])), Convolve(a[2], b[2]))
  }

  function Transposed(a: seq<seq<seq<int>>>): (r: seq<seq<seq<int>>>)
    requires IsMatrix(a)
    ensures IsMatrix(r)
  {
    seq(K, i requires 0 <= i < K => [a[0][i], a[1][i], a[2][i]])
  }

  // ---------------------------------------------------------------- the four equations

  /** t = A s + e, row by row, in the transformed domain. */
  function PublicVector(a: seq<seq<seq<int>>>, s: seq<seq<int>>, e: seq<seq<int>>): (t: seq<seq<int>>)
    requires IsMatrix(a) && IsVector(s) && IsVector(e)
    ensures IsVector(t)
  {
    seq(K, i requires 0 <= i < K => PolyAdd(Dot(a[i], HatAll(s)), Hat(e[i])))
  }

  /** u = A^T r + e1. */
  function FirstPart(at: seq<seq<seq<int>>>, r: seq<seq<int>>, e1: seq<seq<int>>): (u: seq<seq<int>>)
    requires IsMatrix(at) && IsVector(r) && IsVector(e1)
    ensures IsVector(u)
  {
    seq(K, i requires 0 <= i < K => PolyAdd(Unhat(Dot(at[i], HatAll(r))), e1[i]))
  }

  /** v = t^T r + e2 + mu. */
  function SecondPart(t: seq<seq<int>>, r: seq<seq<int>>, e2: seq<int>, mu: seq<int>): (v: seq<int>)
    requires IsVector(t) && IsVector(r) && IsPoly(e2) && IsPoly(mu)
    ensures IsPoly(v)
  {
    PolyAdd(PolyAdd(Unhat(Dot(t, HatAll(r))), e2), mu)
  }

  /** w = v - s^T u. */
  function Opened(sh: seq<seq<int>>, u: seq<seq<int>>, v: seq<int>): (w: seq<int>)
    requires IsVector(sh) && IsVector(u) && IsPoly(v)
    ensures IsPoly(w)
  {
    PolySub(v, Unhat(Dot(sh, HatAll(u))))
  }

  /** e r + e2 + cv - s g, where g = e1 + cu. */
  function Noise(s: seq<seq<int>>, e: seq<seq<int>>, r: seq<seq<int>>, g: seq<seq<int>>, e2: seq<int>, cv: seq<int>): (n: seq<int>)
    requires IsVector(s) && IsVector(e) && IsVector(r) && IsVector(g) && IsPoly(e2) && IsPoly(cv)
    ensures IsPoly(n)
  {
    PolySub(PolyAdd(PolyAdd(ConvolveAll(e, r), e2), cv), ConvolveAll(s, g))
  }

  // ---------------------------------------------------------------- linearity

  lemma SumIsSum(a: seq<int>, b: seq<int>)
    requires IsPoly(a) && IsPoly(b)
    ensures IsSum(PolyAdd(a, b), a, 1, b, Q) && IsSum(PolySub(a, b), a, -1, b, Q)
  {
    forall i | 0 <= i < N
      ensures ((a[i] + b[i]) % Q) % Q == (a[i] + 1 * b[i]) % Q
      ensures ((a[i] - b[i]) % Q) % Q == (a[i] + -1 * b[i]) % Q
    {
      M.Reduce(a[i] + b[i], Q);
      M.Reduce(a[i] - b[i], Q);
    }
  }

  lemma SumOf(c: seq<int>, a: seq<int>, b: seq<int>)
    requires IsPoly(c) && IsPoly(a) && IsPoly(b)
    ensures IsSum(c, a, 1, b, Q) ==> c == PolyAdd(a, b)
    ensures IsSum(c, a, -1, b, Q) ==> c == PolySub(a, b)
  {
    forall i | 0 <= i < N
      ensures c[i] % Q == c[i]
    {
      M.Small(c[i], Q);
    }
  }

  lemma HatOfSum(a: seq<int>, b: seq<int>)
    requires IsPoly(a) && IsPoly(b)
    ensures Hat(PolyAdd(a, b)) == PolyAdd(Hat(a), Hat(b))
  {
    hide NttSpec.Ntt, PolyAdd;
    Ends();
    SumIsSum(a, b);
    NttLinear(PolyAdd(a, b), a, 1, b, 2, 7, 1, Zeta, Q);
    SumOf(Hat(PolyAdd(a, b)), Hat(a), Hat(b));
  }

  lemma UnscaledSum(c: int, a: int, s: int, d: int)
    requires c % Q == (a + s * d) % Q
    ensures ((c * N_INVERSE) % Q) % Q == ((a * N_INVERSE) % Q + s * ((d * N_INVERSE) % Q)) % Q
  {
    assert 0 * c == 0 && 0 * a == 0 && 0 * d == 0;
    Combine(0, 0, 0, c, a, d, s, N_INVERSE, Q);
  }

  lemma UnhatLinear(c: seq<int>, a: seq<int>, s: int, d: seq<int>)
    requires IsPoly(c) && IsPoly(a) && IsPoly(d) && IsSum(c, a, s, d, Q)
    ensures IsSum(Unhat(c), Unhat(a), s, Unhat(d), Q)
  {
    hide NttSpec.INtt;
    Ends();
    INttLinear(c, a, s, d, 2, 7, 1, InvZeta, Q);
    var c', a', d' := NttSpec.INtt(c, 2, 7, 1, InvZeta, Q), NttSpec.INtt(a, 2, 7, 1, InvZeta, Q), NttSpec.INtt(d, 2, 7, 1, InvZeta, Q);
    forall i | 0 <= i < N
      ensures Unhat(c)[i] % Q == (Unhat(a)[i] + s * Unhat(d)[i]) % Q
    {
      UnscaledSum(c'[i], a'[i], s, d'[i]);
    }
  }

  lemma Sizes(p: seq<int>)
    requires IsPoly(p)
    ensures |p| == N
  {
  }

  lemma UnhatOfSum(a: seq<int>, b: seq<int>)
    requires IsPoly(a) && IsPoly(b)
    ensures Unhat(PolyAdd(a, b)) == PolyAdd(Unhat(a), Unhat(b))
    ensures Unhat(PolySub(a, b)) == PolySub(Unhat(a), Unhat(b))
  {
    hide *;
    Sizes(a);
    Sizes(b);
    Sizes(Unhat(a));
    Sizes(Unhat(b));
    SumIsSum(a, b);
    UnhatLinear(PolyAdd(a, b), a, 1, b);
    UnhatLinear(PolySub(a, b), a, -1, b);
    SumOf(Unhat(PolyAdd(a, b)), Unhat(a), Unhat(b));
    SumOf(Unhat(PolySub(a, b)), Unhat(a), Unhat(b));
  }

  lemma HatInverse(a: seq<int>)
    requires IsPoly(a)
    ensures Hat(Unhat(a)) == a && Unhat(Hat(a)) == a
  {
    ForwardOfInverse(a);
    InverseOfForward(a);
  }

  lemma UnhatOfTimes(a: seq<int>, b: seq<int>)
    requires IsPoly(a) && IsPoly(b)
    ensures Unhat(Times(Hat(a), Hat(b))) == Convolve(a, b)
  {
    NttMultiplies(a, b);
  }

  lemma UnhatOfZero()
    ensures Unhat(Zero()) == Zero()
  {
    hide *;
    Sizes(Zero());
    Sizes(Unhat(Zero()));
    SubSame(Zero());
    UnhatOfSum(Zero(), Zero());
    SubSame(Unhat(Zero()));
  }

  lemma SubSame(a: seq<int>)
    requires IsPoly(a)
    ensures PolySub(a, a) == Zero()
  {
    M.Small(0, Q);
  }

  /** Back in the time domain, a sum of products is the sum of the schoolbook products. */
  lemma UnhatOfDot(a: seq<seq<int>>, b: seq<seq<int>>)
    requires IsVector(a) && IsVector(b)
    ensures Unhat(Dot(HatAll(a), HatAll(b))) == ConvolveAll(a, b)
  {
    DotUnfold(HatAll(a), HatAll(b));
    HatsOf(a);
    HatsOf(b);
    hide *;
    var p, q, r := Times(HatAll(a)[0], HatAll(b)[0]), Times(HatAll(a)[1], HatAll(b)[1]), Times(HatAll(a)[2], HatAll(b)[2]);
    UnhatOfZero();
    UnhatOfSum(Zero(), p);
    UnhatOfSum(PolyAdd(Zero(), p), q);
    UnhatOfSum(PolyAdd(PolyAdd(Zero(), p), q), r);
    UnhatOfTimes(a[0], b[0]);
    UnhatOfTimes(a[1], b[1]);
    UnhatOfTimes(a[2], b[2]);
    ConvolveAllIs(a, b);
  }

  lemma ConvolveAllIs(a: seq<seq<int>>, b: seq<seq<int>>)
    requires IsVector(a) && IsVector(b)
    ensures ConvolveAll(a, b) == PolyAdd(PolyAdd(PolyAdd(Zero(), Convolve(a[0], b[0])), Convolve(a[1], b[1])), Convolve(a[2], b[2]))
  {
  }

  lemma HatsOf(v: seq<seq<int>>)
    requires IsVector(v)
    ensures |v| == 3 && IsPoly(v[0]) && IsPoly(v[1]) && IsPoly(v[2])
    ensures |HatAll(v)| == 3 && HatAll(v)[0] == Hat(v[0]) && HatAll(v)[1] == Hat(v[1]) && HatAll(v)[2] == Hat(v[2])
  {
  }

  lemma DotUnfold(a: seq<seq<int>>, b: seq<seq<int>>)
    requires IsVector(a) && IsVector(b)
    ensures |a| == |b| == 3 && IsPoly(a[0]) && IsPoly(a[1]) && IsPoly(a[2]) && IsPoly(b[0]) && IsPoly(b[1]) && IsPoly(b[2])
    ensures Dot(a, b) == PolyAdd(PolyAdd(PolyAdd(Zero(), Times(a[0], b[0])), Times(a[1], b[1])), Times(a[2], b[2]))
  {
    hide Times, PolyAdd;
    assert DotUpTo(a, b, 3) == PolyAdd(DotUpTo(a, b, 2), Times(a[2], b[2]));
    assert DotUpTo(a, b, 2) == PolyAdd(DotUpTo(a, b, 1), Times(a[1], b[1]));
    assert DotUpTo(a, b, 1) == PolyAdd(DotUpTo(a, b, 0), Times(a[0], b[0]));
  }

  // ---------------------------------------------------------------- pairs modulo X^2 - g

  /** A remainder modulo X^2 - g. */
  datatype Two = Two(lo: int, hi: int)

  function Add2(x: Two, y: Two): Two {
    Two(x.lo + y.lo, x.hi + y.hi)
  }

  function Sub2(x: Two, y: Two): Two {
    Two(x.lo - y.lo, x.hi - y.hi)
  }

  function Mul2(x: Two, y: Two, g: int): Two {
    Two(x.lo * y.lo + g * (x.hi * y.hi), x.lo * y.hi + x.hi * y.lo)
  }

  predicate Same2(x: Two, y: Two) {
    x.lo % Q == y.lo % Q && x.hi % Q == y.hi % Q
  }

  function At2(f: seq<int>, i: nat): Two
    requires |f| == N && i < 128
  {
    Two(f[2 * i], f[2 * i + 1])
  }

  lemma AddSame(x: Two, x': Two, y: Two, y': Two)
    requires Same2(x, x') && Same2(y, y')
    ensures Same2(Add2(x, y), Add2(x', y')) && Same2(Sub2(x, y), Sub2(x', y'))
  {
    M.Add(x.lo, x'.lo, y.lo, y'.lo, Q);
    M.Add(x.hi, x'.hi, y.hi, y'.hi, Q);
  }

  lemma MulSame(x: Two, x': Two, y: Two, y': Two, g: int)
    requires Same2(x, x') && Same2(y, y')
    ensures Same2(Mul2(x, y, g), Mul2(x', y', g))
  {
    M.Mul(x.lo, x'.lo, y.lo, y'.lo, Q);
    M.Mul(x.hi, x'.hi, y.hi, y'.hi, Q);
    M.Mul(x.lo, x'.lo, y.hi, y'.hi, Q);
    M.Mul(x.hi, x'.hi, y.lo, y'.lo, Q);
    M.Scale(g, x.hi * y.hi, x'.hi * y'.hi, Q);
    M.Add(x.lo * y.lo, x'.lo * y'.lo, g * (x.hi * y.hi), g * (x'.hi * y'.hi), Q);
    M.Add(x.lo * y.hi, x'.lo * y'.hi, x.hi * y.lo, x'.hi * y'.lo, Q);
  }

  lemma Distribute(a: int, b: int, c: int)
    ensures a * (b + c) == a * b + a * c && (b + c) * a == b * a + c * a
  {
  }

  lemma MulOfSum(x: Two, y: Two, z: Two, g: int)
    ensures Mul2(x, Add2(y, z), g) == Add2(Mul2(x, y, g), Mul2(x, z, g))
    ensures Mul2(Add2(y, z), x, g) == Add2(Mul2(y, x, g), Mul2(z, x, g))
  {
    Distribute(x.lo, y.lo, z.lo);
    Distribute(x.hi, y.hi, z.hi);
    Distribute(x.lo, y.hi, z.hi);
    Distribute(x.hi, y.lo, z.lo);
    Distribute(g, x.hi * y.hi, x.hi * z.hi);
    Distribute(g, y.hi * x.hi, z.hi * x.hi);
  }

  lemma Three(a: int, b: int, c: int)
    ensures a * (b * c) == (b * a) * c
  {
    M.Assoc(a, b, c);
    assert a * b == b * a;
  }

  lemma Four(g: int, a: int, b: int, c: int)
    ensures a * (g * (b * c)) == g * ((b * a) * c) && g * (a * (b * c)) == g * ((b * a) * c) && (g * (b * a)) * c == g * ((b * a) * c)
  {
    Three(a, b, c);
    M.Assoc(a, g, b * c);
    M.Assoc(g, a, b * c);
    assert a * g == g * a;
    M.Assoc(g, b * a, c);
  }

  /** s (a r) = (a s) r. */
  lemma MulSwap(s: Two, a: Two, r: Two, g: int)
    ensures Mul2(s, Mul2(a, r, g), g) == Mul2(Mul2(a, s, g), r, g)
  {
    Distribute(s.lo, a.lo * r.lo, g * (a.hi * r.hi));
    Distribute(s.hi, a.lo * r.hi, a.hi * r.lo);
    Distribute(s.lo, a.lo * r.hi, a.hi * r.lo);
    Distribute(s.hi, a.lo * r.lo, g * (a.hi * r.hi));
    Distribute(r.lo, a.lo * s.lo, g * (a.hi * s.hi));
    Distribute(r.hi, a.lo * s.hi, a.hi * s.lo);
    Distribute(r.hi, a.lo * s.lo, g * (a.hi * s.hi));
    Distribute(r.lo, a.lo * s.hi, a.hi * s.lo);
    Distribute(g, s.hi * (a.lo * r.hi), s.hi * (a.hi * r.lo));
    Distribute(g, (a.lo * s.hi) * r.hi, (a.hi * s.lo) * r.hi);
    Three(s.lo, a.lo, r.lo);
    Three(s.lo, a.lo, r.hi);
    Three(s.lo, a.hi, r.lo);
    Three(s.hi, a.lo, r.lo);
    Four(g, s.lo, a.hi, r.hi);
    Four(g, s.hi, a.lo, r.hi);
    Four(g, s.hi, a.hi, r.lo);
    Four(g, s.hi, a.hi, r.hi);
  }

  function Dot2(a: seq<Two>, b: seq<Two>, g: int): Two
    requires |a| == |b| == 3
  {
    Add2(Add2(Mul2(a[0], b[0], g), Mul2(a[1], b[1], g)), Mul2(a[2], b[2], g))
  }

  lemma DotOfSum(a: seq<Two>, b: seq<Two>, e: Two, r: Two, g: int)
    requires |a| == |b| == 3
    ensures Mul2(Add2(Dot2(a, b, g), e), r, g)
         == Add2(Add2(Add2(Mul2(Mul2(a[0], b[0], g), r, g), Mul2(Mul2(a[1], b[1], g), r, g)), Mul2(Mul2(a[2], b[2], g), r, g)), Mul2(e, r, g))
    ensures Mul2(r, Add2(Dot2(a, b, g), e), g)
         == Add2(Add2(Add2(Mul2(r, Mul2(a[0], b[0], g), g), Mul2(r, Mul2(a[1], b[1], g), g)), Mul2(r, Mul2(a[2], b[2], g), g)), Mul2(r, e, g))
  {
    hide Mul2, Add2;
    var p, q, s := Mul2(a[0], b[0], g), Mul2(a[1], b[1], g), Mul2(a[2], b[2], g);
    MulOfSum(r, Add2(Add2(p, q), s), e, g);
    MulOfSum(r, Add2(p, q), s, g);
    MulOfSum(r, p, q, g);
  }

  /** (A s + e) r - s (A^T r + d) = e r - s d, in every ring of pairs. */
  lemma Cancel(a: seq<seq<Two>>, s: seq<Two>, e: seq<Two>, r: seq<Two>, d: seq<Two>, t: seq<Two>, u: seq<Two>, g: int)
    requires |a| == |s| == |e| == |r| == |d| == |t| == |u| == 3 && |a[0]| == |a[1]| == |a[2]| == 3
    requires forall k :: 0 <= k < 3 ==> t[k] == Add2(Dot2(a[k], s, g), e[k])
    requires forall j :: 0 <= j < 3 ==> u[j] == Add2(Dot2([a[0][j], a[1][j], a[2][j]], r, g), d[j])
    ensures Sub2(Dot2(t, r, g), Dot2(s, u, g)) == Sub2(Dot2(e, r, g), Dot2(s, d, g))
  {
    hide Mul2;
    forall k | 0 <= k < 3
      ensures Mul2(t[k], r[k], g) == Add2(Add2(Add2(Mul2(Mul2(a[k][0], s[0], g), r[k], g), Mul2(Mul2(a[k][1], s[1], g), r[k], g)), Mul2(Mul2(a[k][2], s[2], g), r[k], g)), Mul2(e[k], r[k], g))
    {
      DotOfSum(a[k], s, e[k], r[k], g);
    }
    forall j | 0 <= j < 3
      ensures Mul2(s[j], u[j], g) == Add2(Add2(Add2(Mul2(Mul2(a[0][j], s[j], g), r[0], g), Mul2(Mul2(a[1][j], s[j], g), r[1], g)), Mul2(Mul2(a[2][j], s[j], g), r[2], g)), Mul2(s[j], d[j], g))
    {
      DotOfSum([a[0][j], a[1][j], a[2][j]], r, d[j], s[j], g);
      MulSwap(s[j], a[0][j], r[0], g);
      MulSwap(s[j], a[1][j], r[1], g);
      MulSwap(s[j], a[2][j], r[2], g);
    }
  }

  // ---------------------------------------------------------------- polynomials as pairs

  lemma AddAt(a: seq<int>, b: seq<int>, i: nat)
    requires IsPoly(a) && IsPoly(b) && i < 128
    ensures Same2(At2(PolyAdd(a, b), i), Add2(At2(a, i), At2(b, i))) && Same2(At2(PolySub(a, b), i), Sub2(At2(a, i), At2(b, i)))
  {
    M.Reduce(a[2 * i] + b[2 * i], Q);
    M.Reduce(a[2 * i + 1] + b[2 * i + 1], Q);
    M.Reduce(a[2 * i] - b[2 * i], Q);
    M.Reduce(a[2 * i + 1] - b[2 * i + 1], Q);
  }

  lemma TimesAt(a: seq<int>, b: seq<int>, i: nat)
    requires IsPoly(a) && IsPoly(b) && i < 128
    ensures Same2(At2(Times(a, b), i), Mul2(At2(a, i), At2(b, i), Gamma(i)))
  {
    hide Gamma;
    PairProductAt(a, b, i, Gamma, Q);
    var x0, x1, y0, y1, g := a[2 * i], a[2 * i + 1], b[2 * i], b[2 * i + 1], Gamma(i);
    hide PairProduct;
    EvenSame(x0, x1, y0, y1, g);
    M.Reduce(x0 * y1 + x1 * y0, Q);
  }

  lemma EvenSame(x0: int, x1: int, y0: int, y1: int, g: int)
    ensures EvenOf(x0, x1, y0, y1, g, Q) % Q == (x0 * y0 + g * (x1 * y1)) % Q
  {
    var p := x1 * y1;
    M.Reduce(p, Q);
    M.Scale(g, p % Q, p, Q);
    assert p % Q * g == g * (p % Q);
    M.Add(x0 * y0, x0 * y0, g * (p % Q), g * p, Q);
    M.Reduce(x0 * y0 + g * (p % Q), Q);
  }

  function Pairs(v: seq<seq<int>>, i: nat): (r: seq<Two>)
    requires IsVector(v) && i < 128
    ensures |r| == 3
  {
    [At2(v[0], i), At2(v[1], i), At2(v[2], i)]
  }

  lemma ZeroAt(i: nat)
    requires i < 128
    ensures At2(Zero(), i) == Two(0, 0)
  {
  }

  lemma DotAt(a: seq<seq<int>>, b: seq<seq<int>>, i: nat)
    requires IsVector(a) && IsVector(b) && i < 128
    ensures Same2(At2(Dot(a, b), i), Dot2(Pairs(a, i), Pairs(b, i), Gamma(i)))
  {
    hide Times, PolyAdd, Gamma, Zero, Dot, Mul2, Same2;
    DotUnfold(a, b);
    var p, q, r := Times(a[0], b[0]), Times(a[1], b[1]), Times(a[2], b[2]);
    TimesAt(a[0], b[0], i);
    TimesAt(a[1], b[1], i);
    TimesAt(a[2], b[2], i);
    AddAt(Zero(), p, i);
    AddAt(PolyAdd(Zero(), p), q, i);
    AddAt(PolyAdd(PolyAdd(Zero(), p), q), r, i);
    ZeroAt(i);
    ThreeTerms(At2(PolyAdd(Zero(), p), i), At2(PolyAdd(PolyAdd(Zero(), p), q), i), At2(Dot(a, b), i), At2(p, i), At2(q, i), At2(r, i),
               Mul2(At2(a[0], i), At2(b[0], i), Gamma(i)), Mul2(At2(a[1], i), At2(b[1], i), Gamma(i)), Mul2(At2(a[2], i), At2(b[2], i), Gamma(i)));
  }

  lemma ThreeTerms(s1: Two, s2: Two, s3: Two, p: Two, q: Two, r: Two, x: Two, y: Two, z: Two)
    requires Same2(s1, Add2(Two(0, 0), p)) && Same2(s2, Add2(s1, q)) && Same2(s3, Add2(s2, r)) && Same2(p, x) && Same2(q, y) && Same2(r, z)
    ensures Same2(s3, Add2(Add2(x, y), z))
  {
    AddSame(s1, x, q, y);
    AddSame(s2, Add2(x, y), r, z);
  }

  /** The same remainder at every pair. */
  lemma SamePoly(a: seq<int>, b: seq<int>)
    requires IsPoly(a) && IsPoly(b) && forall i :: 0 <= i < 128 ==> Same2(At2(a, i), At2(b, i))
    ensures a == b
  {
    forall k | 0 <= k < N
      ensures a[k] == b[k]
    {
      var i := k / 2;
      assert Same2(At2(a, i), At2(b, i));
      M.Small(a[k], Q);
      M.Small(b[k], Q);
    }
  }

  /** A vector whose entries are those of two others, added. */
  lemma CancelAt(a: seq<seq<seq<int>>>, sh: seq<seq<int>>, eh: seq<seq<int>>, rh: seq<seq<int>>, dh: seq<seq<int>>,
                 th: seq<seq<int>>, uh: seq<seq<int>>, i: nat)
    requires IsMatrix(a) && IsVector(sh) && IsVector(eh) && IsVector(rh) && IsVector(dh) && IsVector(th) && IsVector(uh) && i < 128
    requires forall k :: 0 <= k < K ==> th[k] == PolyAdd(Dot(a[k], sh), eh[k])
    requires forall j :: 0 <= j < K ==> uh[j] == PolyAdd(Dot(Transposed(a)[j], rh), dh[j])
    ensures Same2(At2(PolySub(Dot(th, rh), Dot(sh, uh)), i), At2(PolySub(Dot(eh, rh), Dot(sh, dh)), i))
  {
    var g := Gamma(i);
    var a2 := [Pairs(a[0], i), Pairs(a[1], i), Pairs(a[2], i)];
    var s2, e2, r2, d2 := Pairs(sh, i), Pairs(eh, i), Pairs(rh, i), Pairs(dh, i);
    hide Dot, PolyAdd, PolySub, Gamma, Mul2, Same2, Add2, Sub2, Dot2, At2;
    var t2 := [Add2(Dot2(a2[0], s2, g), e2[0]), Add2(Dot2(a2[1], s2, g), e2[1]), Add2(Dot2(a2[2], s2, g), e2[2])];
    var u2 := [Add2(Dot2([a2[0][0], a2[1][0], a2[2][0]], r2, g), d2[0]), Add2(Dot2([a2[0][1], a2[1][1], a2[2][1]], r2, g), d2[1]),
               Add2(Dot2([a2[0][2], a2[1][2], a2[2][2]], r2, g), d2[2])];
    forall k | 0 <= k < 3
      ensures Same2(At2(th[k], i), t2[k]) && Same2(At2(uh[k], i), u2[k])
    {
      SumAt(a[k], sh, eh[k], i);
      SumAt(Transposed(a)[k], rh, dh[k], i);
      assert Pairs(Transposed(a)[k], i) == [a2[0][k], a2[1][k], a2[2][k]];
    }
    Cancel(a2, s2, e2, r2, d2, t2, u2, g);
    DotSame(th, rh, i, t2);
    DotSameRight(sh, uh, i, u2);
    DotAt(eh, rh, i);
    DotAt(sh, dh, i);
    AddAt(Dot(th, rh), Dot(sh, uh), i);
    AddAt(Dot(eh, rh), Dot(sh, dh), i);
    AddSame(At2(Dot(th, rh), i), Dot2(t2, r2, g), At2(Dot(sh, uh), i), Dot2(s2, u2, g));
    AddSame(At2(Dot(eh, rh), i), Dot2(e2, r2, g), At2(Dot(sh, dh), i), Dot2(s2, d2, g));
    SameThrough(At2(PolySub(Dot(th, rh), Dot(sh, uh)), i), Sub2(At2(Dot(th, rh), i), At2(Dot(sh, uh), i)), Sub2(Dot2(t2, r2, g), Dot2(s2, u2, g)));
    SameThrough(At2(PolySub(Dot(eh, rh), Dot(sh, dh)), i), Sub2(At2(Dot(eh, rh), i), At2(Dot(sh, dh), i)), Sub2(Dot2(e2, r2, g), Dot2(s2, d2, g)));
    SameBack(At2(PolySub(Dot(th, rh), Dot(sh, uh)), i), At2(PolySub(Dot(eh, rh), Dot(sh, dh)), i), Sub2(Dot2(t2, r2, g), Dot2(s2, u2, g)));
  }

  lemma SameThrough(x: Two, y: Two, z: Two)
    requires Same2(x, y) && Same2(y, z)
    ensures Same2(x, z)
  {
  }

  lemma SameBack(x: Two, y: Two, z: Two)
    requires Same2(x, z) && Same2(y, z)
    ensures Same2(x, y)
  {
  }

  /** A row product plus a polynomial, at a pair. */
  lemma SumAt(a: seq<seq<int>>, b: seq<seq<int>>, e: seq<int>, i: nat)
    requires IsVector(a) && IsVector(b) && IsPoly(e) && i < 128
    ensures Same2(At2(PolyAdd(Dot(a, b), e), i), Add2(Dot2(Pairs(a, i), Pairs(b, i), Gamma(i)), At2(e, i)))
  {
    hide Dot, PolyAdd, Gamma, Mul2, Dot2;
    AddAt(Dot(a, b), e, i);
    DotAt(a, b, i);
    AddSame(At2(Dot(a, b), i), Dot2(Pairs(a, i), Pairs(b, i), Gamma(i)), At2(e, i), At2(e, i));
  }

  lemma Dot2Same(a: seq<Two>, a': seq<Two>, b: seq<Two>, b': seq<Two>, g: int)
    requires |a| == |a'| == |b| == |b'| == 3 && forall k :: 0 <= k < 3 ==> Same2(a[k], a'[k]) && Same2(b[k], b'[k])
    ensures Same2(Dot2(a, b, g), Dot2(a', b', g))
  {
    hide Mul2, Same2, Add2;
    MulSame(a[0], a'[0], b[0], b'[0], g);
    MulSame(a[1], a'[1], b[1], b'[1], g);
    MulSame(a[2], a'[2], b[2], b'[2], g);
    AddSame(Mul2(a[0], b[0], g), Mul2(a'[0], b'[0], g), Mul2(a[1], b[1], g), Mul2(a'[1], b'[1], g));
    AddSame(Add2(Mul2(a[0], b[0], g), Mul2(a[1], b[1], g)), Add2(Mul2(a'[0], b'[0], g), Mul2(a'[1], b'[1], g)), Mul2(a[2], b[2], g), Mul2(a'[2], b'[2], g));
  }

  lemma DotSame(th: seq<seq<int>>, rh: seq<seq<int>>, i: nat, t2: seq<Two>)
    requires IsVector(th) && IsVector(rh) && i < 128 && |t2| == 3 && forall k :: 0 <= k < 3 ==> Same2(At2(th[k], i), t2[k])
    ensures Same2(At2(Dot(th, rh), i), Dot2(t2, Pairs(rh, i), Gamma(i)))
  {
    hide Dot, Gamma, Dot2;
    DotAt(th, rh, i);
    Dot2Same(Pairs(th, i), t2, Pairs(rh, i), Pairs(rh, i), Gamma(i));
  }

  lemma DotSameRight(sh: seq<seq<int>>, uh: seq<seq<int>>, i: nat, u2: seq<Two>)
    requires IsVector(sh) && IsVector(uh) && i < 128 && |u2| == 3 && forall k :: 0 <= k < 3 ==> Same2(At2(uh[k], i), u2[k])
    ensures Same2(At2(Dot(sh, uh), i), Dot2(Pairs(sh, i), u2, Gamma(i)))
  {
    hide Dot, Gamma, Dot2;
    DotAt(sh, uh, i);
    Dot2Same(Pairs(sh, i), Pairs(sh, i), Pairs(uh, i), u2, Gamma(i));
  }

  // ---------------------------------------------------------------- decryption

  lemma SameHats(a: seq<seq<seq<int>>>, sh: seq<seq<int>>, eh: seq<seq<int>>, rh: seq<seq<int>>, dh: seq<seq<int>>,
                 th: seq<seq<int>>, uh: seq<seq<int>>)
    requires IsMatrix(a) && IsVector(sh) && IsVector(eh) && IsVector(rh) && IsVector(dh) && IsVector(th) && IsVector(uh)
    requires forall k :: 0 <= k < K ==> th[k] == PolyAdd(Dot(a[k], sh), eh[k])
    requires forall j :: 0 <= j < K ==> uh[j] == PolyAdd(Dot(Transposed(a)[j], rh), dh[j])
    ensures PolySub(Dot(th, rh), Dot(sh, uh)) == PolySub(Dot(eh, rh), Dot(sh, dh))
  {
    hide Dot, PolyAdd, PolySub, Same2;
    forall i | 0 <= i < 128
      ensures Same2(At2(PolySub(Dot(th, rh), Dot(sh, uh)), i), At2(PolySub(Dot(eh, rh), Dot(sh, dh)), i))
    {
      CancelAt(a, sh, eh, rh, dh, th, uh, i);
    }
    SamePoly(PolySub(Dot(th, rh), Dot(sh, uh)), PolySub(Dot(eh, rh), Dot(sh, dh)));
  }

  /** The first ciphertext part as it arrives: rounded, off by d. */
  function Shifted(u: seq<seq<int>>, d: seq<seq<int>>): (r: seq<seq<int>>)
    requires IsVector(u) && IsVector(d)
    ensures IsVector(r)
  {
    seq(K, i requires 0 <= i < K => PolyAdd(u[i], d[i]))
  }

  lemma AddAssoc(a: seq<int>, b: seq<int>, c: seq<int>)
    requires IsPoly(a) && IsPoly(b) && IsPoly(c)
    ensures PolyAdd(PolyAdd(a, b), c) == PolyAdd(a, PolyAdd(b, c))
  {
    forall i | 0 <= i < N
      ensures PolyAdd(PolyAdd(a, b), c)[i] == PolyAdd(a, PolyAdd(b, c))[i]
    {
      AssocModulo(a[i], b[i], c[i]);
    }
  }

  lemma AssocModulo(x: int, y: int, z: int)
    ensures ((x + y) % Q + z) % Q == (x + (y + z) % Q) % Q
  {
    M.Reduce(x + y, Q);
    M.Reduce(y + z, Q);
    M.Add((x + y) % Q, x + y, z, z, Q);
    M.Add(x, x, (y + z) % Q, y + z, Q);
  }

  /** The transform of what arrives is the row product plus the transform of the errors. */
  lemma HatOfFirst(ati: seq<seq<int>>, r: seq<seq<int>>, e1: seq<int>, cu: seq<int>)
    requires IsVector(ati) && IsVector(r) && IsPoly(e1) && IsPoly(cu)
    ensures Hat(PolyAdd(PolyAdd(Unhat(Dot(ati, HatAll(r))), e1), cu)) == PolyAdd(Dot(ati, HatAll(r)), Hat(PolyAdd(e1, cu)))
  {
    hide Dot, Hat, Unhat, PolyAdd, HatAll;
    var d := Dot(ati, HatAll(r));
    AddAssoc(Unhat(d), e1, cu);
    HatOfSum(Unhat(d), PolyAdd(e1, cu));
    HatInverse(d);
  }

  lemma HatsOfFirst(at: seq<seq<seq<int>>>, r: seq<seq<int>>, e1: seq<seq<int>>, cu: seq<seq<int>>, j: nat)
    requires IsMatrix(at) && IsVector(r) && IsVector(e1) && IsVector(cu) && j < K
    ensures HatAll(Shifted(FirstPart(at, r, e1), cu))[j] == PolyAdd(Dot(at[j], HatAll(r)), HatAll(Shifted(e1, cu))[j])
  {
    hide Dot, Hat, Unhat, PolyAdd;
    HatOfFirst(at[j], r, e1[j], cu[j]);
  }

  lemma PublicAt(a: seq<seq<seq<int>>>, s: seq<seq<int>>, e: seq<seq<int>>, k: nat)
    requires IsMatrix(a) && IsVector(s) && IsVector(e) && k < K
    ensures PublicVector(a, s, e)[k] == PolyAdd(Dot(a[k], HatAll(s)), HatAll(e)[k])
  {
  }

  /** In the time domain: t^T r - s^T u comes to e r - s g. */
  lemma ProductsCancel(a: seq<seq<seq<int>>>, s: seq<seq<int>>, e: seq<seq<int>>, r: seq<seq<int>>, e1: seq<seq<int>>, cu: seq<seq<int>>)
    requires IsMatrix(a) && IsVector(s) && IsVector(e) && IsVector(r) && IsVector(e1) && IsVector(cu)
    ensures var t, u := PublicVector(a, s, e), Shifted(FirstPart(Transposed(a), r, e1), cu);
      PolySub(Unhat(Dot(t, HatAll(r))), Unhat(Dot(HatAll(s), HatAll(u)))) == PolySub(ConvolveAll(e, r), ConvolveAll(s, Shifted(e1, cu)))
  {
    hide Dot, Unhat, PolyAdd, PolySub, HatAll, ConvolveAll, PublicVector, FirstPart, Shifted, Transposed;
    var t, u, g := PublicVector(a, s, e), Shifted(FirstPart(Transposed(a), r, e1), cu), Shifted(e1, cu);
    forall k | 0 <= k < K
      ensures t[k] == PolyAdd(Dot(a[k], HatAll(s)), HatAll(e)[k])
    {
      PublicAt(a, s, e, k);
    }
    forall j | 0 <= j < K
      ensures HatAll(u)[j] == PolyAdd(Dot(Transposed(a)[j], HatAll(r)), HatAll(g)[j])
    {
      HatsOfFirst(Transposed(a), r, e1, cu, j);
    }
    SameHats(a, HatAll(s), HatAll(e), HatAll(r), HatAll(g), t, HatAll(u));
    UnhatOfSum(Dot(t, HatAll(r)), Dot(HatAll(s), HatAll(u)));
    UnhatOfSum(Dot(HatAll(e), HatAll(r)), Dot(HatAll(s), HatAll(g)));
    UnhatOfDot(e, r);
    UnhatOfDot(s, g);
  }

  /** The coefficient step: rearranging the five terms. */
  lemma Rearranged(x: int, y: int, p: int, q: int, e2: int, mu: int, cv: int)
    requires (x - y) % Q == (p - q) % Q
    ensures ((((x + e2) % Q + mu) % Q + cv) % Q - y) % Q == (mu + (((p + e2) % Q + cv) % Q - q) % Q) % Q
  {
    SumOfFour(x, e2, mu, cv);
    SumOfThree(p, e2, cv);
    M.Add((((x + e2) % Q + mu) % Q + cv) % Q, x + e2 + mu + cv, y, y, Q);
    M.Add(((p + e2) % Q + cv) % Q, p + e2 + cv, q, q, Q);
    M.Reduce(((p + e2) % Q + cv) % Q - q, Q);
    M.Add(mu, mu, (((p + e2) % Q + cv) % Q - q) % Q, p + e2 + cv - q, Q);
    M.Add(x - y, p - q, e2 + mu + cv, e2 + mu + cv, Q);
  }

  lemma SumOfThree(p: int, a: int, b: int)
    ensures (((p + a) % Q + b) % Q) % Q == (p + a + b) % Q
  {
    M.Reduce(p + a, Q);
    M.Add((p + a) % Q, p + a, b, b, Q);
    M.Reduce((p + a) % Q + b, Q);
  }

  lemma SumOfFour(p: int, a: int, b: int, c: int)
    ensures ((((p + a) % Q + b) % Q + c) % Q) % Q == (p + a + b + c) % Q
  {
    SumOfThree(p, a, b);
    M.Add(((p + a) % Q + b) % Q, p + a + b, c, c, Q);
    M.Reduce(((p + a) % Q + b) % Q + c, Q);
  }

  lemma SubAt(a: seq<int>, b: seq<int>, i: nat)
    requires IsPoly(a) && IsPoly(b) && i < N
    ensures PolySub(a, b)[i] == (a[i] - b[i]) % Q && PolyAdd(a, b)[i] == (a[i] + b[i]) % Q
  {
  }

  lemma SumOfFourAt(x: seq<int>, a: seq<int>, b: seq<int>, c: seq<int>, y: seq<int>, i: nat)
    requires IsPoly(x) && IsPoly(a) && IsPoly(b) && IsPoly(c) && IsPoly(y) && i < N
    ensures PolySub(PolyAdd(PolyAdd(PolyAdd(x, a), b), c), y)[i] == ((((x[i] + a[i]) % Q + b[i]) % Q + c[i]) % Q - y[i]) % Q
  {
    hide PolyAdd, PolySub;
    SubAt(x, a, i);
    SubAt(PolyAdd(x, a), b, i);
    SubAt(PolyAdd(PolyAdd(x, a), b), c, i);
    SubAt(PolyAdd(PolyAdd(PolyAdd(x, a), b), c), y, i);
  }

  lemma NoiseAt(mu: seq<int>, p: seq<int>, a: seq<int>, b: seq<int>, q: seq<int>, i: nat)
    requires IsPoly(mu) && IsPoly(p) && IsPoly(a) && IsPoly(b) && IsPoly(q) && i < N
    ensures PolyAdd(mu, PolySub(PolyAdd(PolyAdd(p, a), b), q))[i] == (mu[i] + (((p[i] + a[i]) % Q + b[i]) % Q - q[i]) % Q) % Q
  {
    hide PolyAdd, PolySub;
    SubAt(p, a, i);
    SubAt(PolyAdd(p, a), b, i);
    SubAt(PolyAdd(PolyAdd(p, a), b), q, i);
    SubAt(mu, PolySub(PolyAdd(PolyAdd(p, a), b), q), i);
  }

  /** The five terms of decryption, as polynomials. */
  lemma TermsRearranged(x: seq<int>, y: seq<int>, p: seq<int>, q: seq<int>, e2: seq<int>, mu: seq<int>, cv: seq<int>)
    requires IsPoly(x) && IsPoly(y) && IsPoly(p) && IsPoly(q) && IsPoly(e2) && IsPoly(mu) && IsPoly(cv) && PolySub(x, y) == PolySub(p, q)
    ensures PolySub(PolyAdd(PolyAdd(PolyAdd(x, e2), mu), cv), y) == PolyAdd(mu, PolySub(PolyAdd(PolyAdd(p, e2), cv), q))
  {
    hide PolyAdd, PolySub;
    var l, r := PolySub(PolyAdd(PolyAdd(PolyAdd(x, e2), mu), cv), y), PolyAdd(mu, PolySub(PolyAdd(PolyAdd(p, e2), cv), q));
    forall i | 0 <= i < N
      ensures l[i] == r[i]
    {
      TermsAt(x, y, p, q, e2, mu, cv, i);
    }
    assert l == r;
  }

  lemma TermsAt(x: seq<int>, y: seq<int>, p: seq<int>, q: seq<int>, e2: seq<int>, mu: seq<int>, cv: seq<int>, i: nat)
    requires IsPoly(x) && IsPoly(y) && IsPoly(p) && IsPoly(q) && IsPoly(e2) && IsPoly(mu) && IsPoly(cv) && PolySub(x, y) == PolySub(p, q)
    requires i < N
    ensures PolySub(PolyAdd(PolyAdd(PolyAdd(x, e2), mu), cv), y)[i] == PolyAdd(mu, PolySub(PolyAdd(PolyAdd(p, e2), cv), q))[i]
  {
    hide PolyAdd, PolySub, Q;
    SubAt(x, y, i);
    SubAt(p, q, i);
    SumOfFourAt(x, e2, mu, cv, y, i);
    NoiseAt(mu, p, e2, cv, q, i);
    Rearranged(x[i], y[i], p[i], q[i], e2[i], mu[i], cv[i]);
  }

  /**
   Main result: for every key, every encryption and every rounding (cu of the first part,
   cv of the second), opening gives the encoded message plus the noise.
   */
  lemma OpenedIsNoisy(a: seq<seq<seq<int>>>, s: seq<seq<int>>, e: seq<seq<int>>, r: seq<seq<int>>, e1: seq<seq<int>>, e2: seq<int>,
                      mu: seq<int>, cu: seq<seq<int>>, cv: seq<int>)
    requires IsMatrix(a) && IsVector(s) && IsVector(e) && IsVector(r) && IsVector(e1) && IsVector(cu) && IsPoly(e2) && IsPoly(mu) && IsPoly(cv)
    ensures var t := PublicVector(a, s, e);
      Opened(HatAll(s), Shifted(FirstPart(Transposed(a), r, e1), cu), PolyAdd(SecondPart(t, r, e2, mu), cv))
      == PolyAdd(mu, Noise(s, e, r, Shifted(e1, cu), e2, cv))
  {
    hide Dot, Unhat, PolyAdd, PolySub, HatAll, ConvolveAll, PublicVector, FirstPart, Shifted, Transposed, IsVector, IsMatrix, IsPoly;
    ProductsCancel(a, s, e, r, e1, cu);
    var t, u := PublicVector(a, s, e), Shifted(FirstPart(Transposed(a), r, e1), cu);
    TermsRearranged(Unhat(Dot(t, HatAll(r))), Unhat(Dot(HatAll(s), HatAll(u))), ConvolveAll(e, r), ConvolveAll(s, Shifted(e1, cu)), e2, mu, cv);
  }
}
