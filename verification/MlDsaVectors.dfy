/** Vectors of polynomials: sums, products with a row of the matrix, and their transforms. */
module MlDsaVectors {
  import opened NttSpec
  import opened NttLoops
  import opened MlDsaNtt
  import opened MlDsaRounding
  import opened MlDsaCodec
  import NttTheory
  import M = Modular

  predicate IsPoly(p: seq<int>) {
    |p| == N && Reduced(p, Q)
  }

  predicate IsVector(v: seq<seq<int>>, n: nat) {
    |v| == n && forall i :: 0 <= i < n ==> IsPoly(v[i])
  }

  function PolySum(a: seq<int>, b: seq<int>): (r: seq<int>)
    requires |a| == |b| == N
    ensures IsPoly(r)
  {
    seq(N, i requires 0 <= i < N => (a[i] + b[i]) % Q)
  }

  function PolyDiff(a: seq<int>, b: seq<int>): (r: seq<int>)
    requires |a| == |b| == N
    ensures IsPoly(r)
  {
    seq(N, i requires 0 <= i < N => (a[i] - b[i]) % Q)
  }

  function Times(a: seq<int>, b: seq<int>): (r: seq<int>)
    requires |a| == |b| == N
    ensures IsPoly(r)
  {
    NttTheory.Pointwise(a, b, Q)
  }

  function Hat(p: seq<int>): (r: seq<int>)
    requires IsPoly(p)
    ensures IsPoly(r)
  {
    NttFunReduced(p);
    NttFun(p)
  }

  function Unhat(p: seq<int>): (r: seq<int>)
    requires IsPoly(p)
    ensures IsPoly(r)
  {
    InvNttReduced(p);
    InvNttSpec(p)
  }

  function HatAll(v: seq<seq<int>>, n: nat): (r: seq<seq<int>>)
    requires IsVector(v, n)
    ensures IsVector(r, n)
  {
    seq(n, i requires 0 <= i < n => Hat(v[i]))
  }

  /** The first m terms of a row of the matrix times a vector, all in the transformed domain. */
  function RowProduct(row: seq<seq<int>>, v: seq<seq<int>>, m: nat): (r: seq<int>)
    requires IsVector(row, L) && IsVector(v, L) && m <= L
    ensures IsPoly(r)
    decreases m, |v|
  {
    if m == 0 then Zeros(N) else PolySum(RowProduct(row, v, m - 1), Times(row[m - 1], v[m - 1]))
  }

  // ---------------------------------------------------------------- linearity

  lemma SumOf(c: seq<int>, a: seq<int>, b: seq<int>)
    requires IsPoly(c) && |a| == |b| == N
    ensures IsSum(c, a, 1, b, Q) ==> c == PolySum(a, b)
    ensures IsSum(c, a, -1, b, Q) ==> c == PolyDiff(a, b)
  {
    forall i | 0 <= i < N
      ensures c[i] % Q == c[i]
    {
      M.Small(c[i], Q);
    }
  }

  lemma PolySizes(p: seq<int>)
    requires IsPoly(p)
    ensures |p| == N && Q > 0
  {
  }

  lemma SumIsSum(a: seq<int>, b: seq<int>)
    requires |a| == |b| == N
    ensures IsSum(PolySum(a, b), a, 1, b, Q) && IsSum(PolyDiff(a, b), a, -1, b, Q)
  {
    forall i | 0 <= i < N
      ensures ((a[i] + b[i]) % Q) % Q == (a[i] + 1 * b[i]) % Q
      ensures ((a[i] - b[i]) % Q) % Q == (a[i] + -1 * b[i]) % Q
    {
      M.Reduce(a[i] + b[i], Q);
      M.Reduce(a[i] - b[i], Q);
    }
  }

  lemma HatOfSum(a: seq<int>, b: seq<int>)
    requires IsPoly(a) && IsPoly(b)
    ensures Hat(PolySum(a, b)) == PolySum(Hat(a), Hat(b))
  {
    hide NttSpec.Ntt;
    Exp2Values();
    SumIsSum(a, b);
    NttLinear(PolySum(a, b), a, 1, b, 1, 8, 1, Zeta, Q);
    SumOf(Hat(PolySum(a, b)), Hat(a), Hat(b));
  }

  lemma UnscaledSum(c: int, a: int, s: int, d: int)
    requires c % Q == (a + s * d) % Q
    ensures ((c * N_INVERSE) % Q) % Q == ((a * N_INVERSE) % Q + s * ((d * N_INVERSE) % Q)) % Q
  {
    assert 0 * c == 0 && 0 * a == 0 && 0 * d == 0;
    Combine(0, 0, 0, c, a, d, s, N_INVERSE, Q);
  }

  lemma UnhatLinear(c: seq<int>, a: seq<int>, s: int, d: seq<int>)
    requires IsPoly(c) && IsPoly(a) && IsPoly(d) && IsSum(c, a, s, d, Q)
    ensures IsSum(Unhat(c), Unhat(a), s, Unhat(d), Q)
  {
    hide NttSpec.INtt;
    Exp2Values();
    INttLinear(c, a, s, d, 1, 8, 1, InvZeta, Q);
    var c', a', d' := NttSpec.INtt(c, 1, 8, 1, InvZeta, Q), NttSpec.INtt(a, 1, 8, 1, InvZeta, Q), NttSpec.INtt(d, 1, 8, 1, InvZeta, Q);
    forall i | 0 <= i < N
      ensures Unhat(c)[i] % Q == (Unhat(a)[i] + s * Unhat(d)[i]) % Q
    {
      UnscaledSum(c'[i], a'[i], s, d'[i]);
    }
  }

  lemma UnhatOfSum(a: seq<int>, b: seq<int>)
    requires IsPoly(a) && IsPoly(b)
    ensures Unhat(PolySum(a, b)) == PolySum(Unhat(a), Unhat(b))
    ensures Unhat(PolyDiff(a, b)) == PolyDiff(Unhat(a), Unhat(b))
  {
    PolySizes(a);
    PolySizes(b);
    hide *;
    SumIsSum(a, b);
    UnhatLinear(PolySum(a, b), a, 1, b);
    UnhatLinear(PolyDiff(a, b), a, -1, b);
    PolySizes(Unhat(a));
    PolySizes(Unhat(b));
    SumOf(Unhat(PolySum(a, b)), Unhat(a), Unhat(b));
    SumOf(Unhat(PolyDiff(a, b)), Unhat(a), Unhat(b));
  }

  lemma HatInverse(a: seq<int>)
    requires IsPoly(a)
    ensures Hat(Unhat(a)) == a && Unhat(Hat(a)) == a
  {
    ForwardOfInverse(a);
    InverseOfForward(a);
  }

  /** The coefficient step of RowLinear. */
  lemma RowStep(z: int, y: int, c: int, s: int, r: int, pz: int, py: int, ps: int, qz: int, qy: int, qs: int)
    requires z % Q == (y + c * s) % Q && pz % Q == (py + c * ps) % Q
    requires qz == (pz + (r * z) % Q) % Q && qy == (py + (r * y) % Q) % Q && qs == (ps + (r * s) % Q) % Q
    ensures qz % Q == (qy + c * qs) % Q
  {
    Combine(0, 0, 0, z, y, s, c, r, Q);
    Combine(pz, py, ps, (r * z) % Q, (r * y) % Q, (r * s) % Q, c, 1, Q);
  }

  function Coef(v: seq<seq<int>>, j: nat, i: nat): int
    requires IsVector(v, L) && j < L && i < N
  {
    v[j][i]
  }

  function RowCoef(row: seq<seq<int>>, v: seq<seq<int>>, m: nat, i: nat): int
    requires IsVector(row, L) && IsVector(v, L) && m <= L && i < N
  {
    RowProduct(row, v, m)[i]
  }

  lemma RowNext(row: seq<seq<int>>, v: seq<seq<int>>, m: nat, i: nat)
    requires IsVector(row, L) && IsVector(v, L) && 0 < m <= L && i < N
    ensures RowCoef(row, v, m, i) == (RowCoef(row, v, m - 1, i) + (Coef(row, m - 1, i) * Coef(v, m - 1, i)) % Q) % Q
  {
  }

  lemma RowNone(row: seq<seq<int>>, v: seq<seq<int>>, i: nat)
    requires IsVector(row, L) && IsVector(v, L) && i < N
    ensures RowCoef(row, v, 0, i) == 0
  {
  }

  /** Coefficient i of a row product is linear in the vector. */
  lemma {:induction false} RowLinear(row: seq<seq<int>>, z: seq<seq<int>>, y: seq<seq<int>>, c: int, s: seq<seq<int>>, m: nat, i: nat)
    requires IsVector(row, L) && IsVector(z, L) && IsVector(y, L) && IsVector(s, L) && m <= L && i < N
    requires forall j :: 0 <= j < L ==> Coef(z, j, i) % Q == (Coef(y, j, i) + c * Coef(s, j, i)) % Q
    ensures RowCoef(row, z, m, i) % Q == (RowCoef(row, y, m, i) + c * RowCoef(row, s, m, i)) % Q
  {
    hide *;
    if m == 0 {
      RowNone(row, z, i);
      RowNone(row, y, i);
      RowNone(row, s, i);
      assert c * 0 == 0;
    } else {
      var k := m - 1;
      RowLinear(row, z, y, c, s, k, i);
      RowNext(row, z, m, i);
      RowNext(row, y, m, i);
      RowNext(row, s, m, i);
      RowStep(Coef(z, k, i), Coef(y, k, i), c, Coef(s, k, i), Coef(row, k, i),
              RowCoef(row, z, k, i), RowCoef(row, y, k, i), RowCoef(row, s, k, i),
              RowCoef(row, z, m, i), RowCoef(row, y, m, i), RowCoef(row, s, m, i));
    }
  }
}
