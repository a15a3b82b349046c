/**
 The number-theoretic transform, for any modulus, any number of levels and any
 table of twiddle factors.

 A transform of t levels works on b * 2^t coefficients and stops at blocks of b:
 b == 1 is the complete transform of ML-DSA, b == 2 the incomplete one of ML-KEM.
 Nodes of the splitting tree are numbered from the root down: the root is 1, the
 children of k are 2k and 2k+1, and node k uses the twiddle factor zs(k).
 */
module NttSpec {
  import M = Modular

  type Twiddles = nat -> int

  /** b * 2^t, the number of coefficients in a block with t levels left. */
  function Size(b: nat, t: nat): (r: nat)
    ensures b >= 1 ==> r >= 1
  {
    if t == 0 then b else 2 * Size(b, t - 1)
  }

  function Exp2(t: nat): (r: nat)
    ensures r >= 1
  {
    Size(1, t)
  }

  // ---------------------------------------------------------------- polynomials over the integers

  function Pow(x: int, e: nat): int {
    if e == 0 then 1 else x * Pow(x, e - 1)
  }

  lemma {:induction false} PowAdd(x: int, a: nat, b: nat)
    ensures Pow(x, a + b) == Pow(x, a) * Pow(x, b)
  {
    if a == 0 {
    } else {
      PowAdd(x, a - 1, b);
      assert x * (Pow(x, a - 1) * Pow(x, b)) == (x * Pow(x, a - 1)) * Pow(x, b);
    }
  }

  /** The value at x of the polynomial with coefficients a, lowest first. */
  function Eval(a: seq<int>, x: int): int {
    if |a| == 0 then 0 else a[0] + x * Eval(a[1..], x)
  }

  lemma {:induction false} EvalConcat(a: seq<int>, b: seq<int>, x: int)
    ensures Eval(a + b, x) == Eval(a, x) + Pow(x, |a|) * Eval(b, x)
  {
    if a == [] {
      assert a + b == b;
    } else {
      EvalConcat(a[1..], b, x);
      assert (a + b)[1..] == a[1..] + b;
      assert x * (Pow(x, |a| - 1) * Eval(b, x)) == Pow(x, |a|) * Eval(b, x);
      assert x * (Eval(a[1..], x) + Pow(x, |a| - 1) * Eval(b, x))
          == x * Eval(a[1..], x) + x * (Pow(x, |a| - 1) * Eval(b, x));
    }
  }

  /** c is a + s*b coefficient by coefficient, modulo q. */
  ghost predicate IsSum(c: seq<int>, a: seq<int>, s: int, b: seq<int>, q: nat)
    requires q > 0
  {
    && |c| == |a| == |b|
    && forall i :: 0 <= i < |c| ==> c[i] % q == (a[i] + s * b[i]) % q
  }

  lemma {:induction false} EvalSum(c: seq<int>, a: seq<int>, s: int, b: seq<int>, x: int, q: nat)
    requires q > 0 && IsSum(c, a, s, b, q)
    ensures Eval(c, x) % q == (Eval(a, x) + s * Eval(b, x)) % q
  {
    if c == [] {
    } else {
      var c', a', b' := Eval(c[1..], x), Eval(a[1..], x), Eval(b[1..], x);
      EvalSum(c[1..], a[1..], s, b[1..], x, q);
      M.Scale(x, c', a' + s * b', q);
      M.Add(c[0], a[0] + s * b[0], x * c', x * (a' + s * b'), q);
      SumStep(a[0], b[0], a', b', s, x);
    }
  }

  lemma SumStep(a0: int, b0: int, a: int, b: int, s: int, x: int)
    ensures a0 + s * b0 + x * (a + s * b) == (a0 + x * a) + s * (b0 + x * b)
  {
    assert x * (a + s * b) == x * a + x * (s * b);
    assert s * (b0 + x * b) == s * b0 + s * (x * b);
    assert x * (s * b) == s * (x * b);
  }

  // ---------------------------------------------------------------- the transform

  function Lo(a: seq<int>, z: int, q: nat): (r: seq<int>)
    requires q > 0 && |a| % 2 == 0
    ensures |r| == |a| / 2
  {
    seq(|a| / 2, i requires 0 <= i < |a| / 2 => (a[i] + z * a[i + |a| / 2]) % q)
  }

  function Hi(a: seq<int>, z: int, q: nat): (r: seq<int>)
    requires q > 0 && |a| % 2 == 0
    ensures |r| == |a| / 2
  {
    seq(|a| / 2, i requires 0 <= i < |a| / 2 => (a[i] - z * a[i + |a| / 2]) % q)
  }

  /** One butterfly block of the forward transform. */
  function Split(a: seq<int>, z: int, q: nat): (r: seq<int>)
    requires q > 0 && |a| % 2 == 0
    ensures |r| == |a|
  {
    Lo(a, z, q) + Hi(a, z, q)
  }

  /** One butterfly block of the inverse transform, with the inverse factor y. */
  function Merge(l: seq<int>, r: seq<int>, y: int, q: nat): (s: seq<int>)
    requires q > 0 && |l| == |r|
    ensures |s| == 2 * |l|
  {
    seq(|l|, i requires 0 <= i < |l| => (l[i] + r[i]) % q)
    + seq(|l|, i requires 0 <= i < |l| => (y * (l[i] - r[i])) % q)
  }

  function Ntt(a: seq<int>, b: nat, t: nat, k: nat, zs: Twiddles, q: nat): (r: seq<int>)
    requires q > 0 && |a| == Size(b, t)
    ensures |r| == |a|
    decreases t, |a|
  {
    if t == 0 then a
    else
      HalfSize(b, t);
      Ntt(Lo(a, zs(k), q), b, t - 1, 2 * k, zs, q) + Ntt(Hi(a, zs(k), q), b, t - 1, 2 * k + 1, zs, q)
  }

  /** The inverse transform without its final scaling. */
  function INtt(a: seq<int>, b: nat, t: nat, k: nat, ys: Twiddles, q: nat): (r: seq<int>)
    requires q > 0 && |a| == Size(b, t)
    ensures |r| == |a|
    decreases t, |a|
  {
    if t == 0 then a
    else
      HalfSize(b, t);
      var h := |a| / 2;
      Merge(INtt(a[..h], b, t - 1, 2 * k, ys, q), INtt(a[h..], b, t - 1, 2 * k + 1, ys, q), ys(k), q)
  }

  lemma HalfSize(b: nat, t: nat)
    requires t > 0
    ensures Size(b, t) == 2 * Size(b, t - 1) && Size(b, t) % 2 == 0 && Size(b, t) / 2 == Size(b, t - 1)
  {
  }

  lemma NttUnfold(a: seq<int>, b: nat, t: nat, k: nat, zs: Twiddles, q: nat)
    requires q > 0 && t > 0 && |a| == Size(b, t)
    ensures |a| == 2 * Size(b, t - 1)
    ensures Ntt(a, b, t, k, zs, q)
         == Ntt(Lo(a, zs(k), q), b, t - 1, 2 * k, zs, q) + Ntt(Hi(a, zs(k), q), b, t - 1, 2 * k + 1, zs, q)
    ensures Split(a, zs(k), q) == Lo(a, zs(k), q) + Hi(a, zs(k), q)
  {
  }

  lemma INttUnfold(a: seq<int>, b: nat, t: nat, k: nat, ys: Twiddles, q: nat)
    requires q > 0 && t > 0 && |a| == Size(b, t)
    ensures |a| == 2 * Size(b, t - 1)
    ensures var h := Size(b, t - 1);
      INtt(a, b, t, k, ys, q) == Merge(INtt(a[..h], b, t - 1, 2 * k, ys, q), INtt(a[h..], b, t - 1, 2 * k + 1, ys, q), ys(k), q)
  {
  }

  predicate Reduced(a: seq<int>, q: nat) {
    forall i :: 0 <= i < |a| ==> 0 <= a[i] < q
  }

  lemma {:induction false} NttReduced(a: seq<int>, b: nat, t: nat, k: nat, zs: Twiddles, q: nat)
    requires q > 0 && |a| == Size(b, t) && Reduced(a, q)
    ensures Reduced(Ntt(a, b, t, k, zs, q), q)
    decreases t
  {
    if t > 0 {
      HalfSize(b, t);
      NttReduced(Lo(a, zs(k), q), b, t - 1, 2 * k, zs, q);
      NttReduced(Hi(a, zs(k), q), b, t - 1, 2 * k + 1, zs, q);
    }
  }

  // ---------------------------------------------------------------- linearity

  lemma {:induction false} NttLinear(c: seq<int>, a: seq<int>, s: int, d: seq<int>,
                                     b: nat, t: nat, k: nat, zs: Twiddles, q: nat)
    requires q > 0 && |c| == Size(b, t) && IsSum(c, a, s, d, q)
    ensures IsSum(Ntt(c, b, t, k, zs, q), Ntt(a, b, t, k, zs, q), s, Ntt(d, b, t, k, zs, q), q)
    decreases t
  {
    if t > 0 {
      HalfSize(b, t);
      SplitLinear(c, a, s, d, zs(k), q);
      NttLinear(Lo(c, zs(k), q), Lo(a, zs(k), q), s, Lo(d, zs(k), q), b, t - 1, 2 * k, zs, q);
      NttLinear(Hi(c, zs(k), q), Hi(a, zs(k), q), s, Hi(d, zs(k), q), b, t - 1, 2 * k + 1, zs, q);
      SumConcat(Ntt(Lo(c, zs(k), q), b, t - 1, 2 * k, zs, q), Ntt(Hi(c, zs(k), q), b, t - 1, 2 * k + 1, zs, q),
                Ntt(Lo(a, zs(k), q), b, t - 1, 2 * k, zs, q), Ntt(Hi(a, zs(k), q), b, t - 1, 2 * k + 1, zs, q), s,
                Ntt(Lo(d, zs(k), q), b, t - 1, 2 * k, zs, q), Ntt(Hi(d, zs(k), q), b, t - 1, 2 * k + 1, zs, q), q);
    }
  }

  lemma SumConcat(c: seq<int>, c': seq<int>, a: seq<int>, a': seq<int>, s: int, d: seq<int>, d': seq<int>, q: nat)
    requires q > 0 && IsSum(c, a, s, d, q) && IsSum(c', a', s, d', q)
    ensures IsSum(c + c', a + a', s, d + d', q)
  {
    forall i | 0 <= i < |c + c'|
      ensures (c + c')[i] % q == ((a + a')[i] + s * (d + d')[i]) % q
    {
      if i >= |c| {
        var j := i - |c|;
        assert (c + c')[i] == c'[j] && (a + a')[i] == a'[j] && (d + d')[i] == d'[j];
      } else {
        assert (c + c')[i] == c[i] && (a + a')[i] == a[i] && (d + d')[i] == d[i];
      }
    }
  }

  /** (c + z*c') mod q for sums c, c'. */
  lemma Combine(c: int, a: int, d: int, c': int, a': int, d': int, s: int, z: int, q: nat)
    requires q > 0 && c % q == (a + s * d) % q && c' % q == (a' + s * d') % q
    ensures ((c + z * c') % q) % q == ((a + z * a') % q + s * ((d + z * d') % q)) % q
  {
    M.Scale(z, c', a' + s * d', q);
    M.Add(c, a + s * d, z * c', z * (a' + s * d'), q);
    SumStep(a, d, a', d', s, z);
    M.Reduce(c + z * c', q);
    M.Reduce(a + z * a', q);
    M.Reduce(d + z * d', q);
    M.Scale(s, (d + z * d') % q, d + z * d', q);
    M.Add((a + z * a') % q, a + z * a', s * ((d + z * d') % q), s * (d + z * d'), q);
  }

  lemma MinusProduct(z: int, x: int)
    ensures (-z) * x == -(z * x)
  {
  }

  lemma SplitLinear(c: seq<int>, a: seq<int>, s: int, d: seq<int>, z: int, q: nat)
    requires q > 0 && |c| % 2 == 0 && IsSum(c, a, s, d, q)
    ensures IsSum(Lo(c, z, q), Lo(a, z, q), s, Lo(d, z, q), q)
    ensures IsSum(Hi(c, z, q), Hi(a, z, q), s, Hi(d, z, q), q)
  {
    var h := |c| / 2;
    forall i | 0 <= i < h
      ensures Lo(c, z, q)[i] % q == (Lo(a, z, q)[i] + s * Lo(d, z, q)[i]) % q
      ensures Hi(c, z, q)[i] % q == (Hi(a, z, q)[i] + s * Hi(d, z, q)[i]) % q
    {
      Combine(c[i], a[i], d[i], c[i + h], a[i + h], d[i + h], s, z, q);
      Combine(c[i], a[i], d[i], c[i + h], a[i + h], d[i + h], s, -z, q);
      MinusProduct(z, c[i + h]);
      MinusProduct(z, a[i + h]);
      MinusProduct(z, d[i + h]);
    }
  }

  lemma {:induction false} INttLinear(c: seq<int>, a: seq<int>, s: int, d: seq<int>,
                                      b: nat, t: nat, k: nat, ys: Twiddles, q: nat)
    requires q > 0 && |c| == Size(b, t) && IsSum(c, a, s, d, q)
    ensures IsSum(INtt(c, b, t, k, ys, q), INtt(a, b, t, k, ys, q), s, INtt(d, b, t, k, ys, q), q)
    decreases t
  {
    if t > 0 {
      HalfSize(b, t);
      var h := |c| / 2;
      INttLinear(c[..h], a[..h], s, d[..h], b, t - 1, 2 * k, ys, q);
      INttLinear(c[h..], a[h..], s, d[h..], b, t - 1, 2 * k + 1, ys, q);
      MergeLinear(INtt(c[..h], b, t - 1, 2 * k, ys, q), INtt(c[h..], b, t - 1, 2 * k + 1, ys, q),
                  INtt(a[..h], b, t - 1, 2 * k, ys, q), INtt(a[h..], b, t - 1, 2 * k + 1, ys, q),
                  INtt(d[..h], b, t - 1, 2 * k, ys, q), INtt(d[h..], b, t - 1, 2 * k + 1, ys, q), s, ys(k), q);
    }
  }

  lemma MergeLinear(cl: seq<int>, cr: seq<int>, al: seq<int>, ar: seq<int>, dl: seq<int>, dr: seq<int>,
                    s: int, y: int, q: nat)
    requires q > 0 && |cl| == |cr| && IsSum(cl, al, s, dl, q) && IsSum(cr, ar, s, dr, q)
    ensures IsSum(Merge(cl, cr, y, q), Merge(al, ar, y, q), s, Merge(dl, dr, y, q), q)
  {
    var c, a, d := Merge(cl, cr, y, q), Merge(al, ar, y, q), Merge(dl, dr, y, q);
    var h := |cl|;
    forall i | 0 <= i < 2 * h
      ensures c[i] % q == (a[i] + s * d[i]) % q
    {
      if i < h {
        Combine(cl[i], al[i], dl[i], cr[i], ar[i], dr[i], s, 1, q);
      } else {
        var j := i - h;
        assert 0 * cl[j] == 0 && 0 * al[j] == 0 && 0 * dl[j] == 0;
        MergeHigh(cl[j], cr[j], al[j], ar[j], dl[j], dr[j], s, y, q);
      }
    }
  }

  lemma MergeHigh(cl: int, cr: int, al: int, ar: int, dl: int, dr: int, s: int, y: int, q: nat)
    requires q > 0 && cl % q == (al + s * dl) % q && cr % q == (ar + s * dr) % q
    ensures ((y * (cl - cr)) % q) % q == ((y * (al - ar)) % q + s * ((y * (dl - dr)) % q)) % q
  {
    M.Add(cl, al + s * dl, cr, ar + s * dr, q);
    assert al + s * dl - (ar + s * dr) == (al - ar) + s * (dl - dr);
    Combine(0, 0, 0, cl - cr, al - ar, dl - dr, s, y, q);
  }
}
