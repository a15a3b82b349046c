/**
 The in-place transforms of ML-DSA-65: coefficients modulo q = 8380417, 256 of them,
 eight levels down to single coefficients, twiddle factors 1753^brv8(k).
 */
module MlDsaNtt {
  import opened NttSpec
  import opened NttBlocks
  import opened NttLoops
  import opened PowerModulo
  import NttTheory
  import M = Modular

  const Q: nat := 8380417
  const ROOT: nat := 1753

  type Poly = a: seq<int> | |a| == 256 witness seq(256, i => 0)

  // ---------------------------------------------------------------- modular helpers

  /** All intermediate values fit 32-bit integers, and 64-bit ones for products. */
  predicate FitsI32(x: int) {
    -0x8000_0000 <= x < 0x8000_0000
  }

  predicate FitsI64(x: int) {
    -0x8000_0000_0000_0000 <= x < 0x8000_0000_0000_0000
  }

  function AddMod(a: int, b: int): (r: int)
    requires 0 <= a < Q && 0 <= b < Q
    ensures FitsI32(a + b) && r == (a + b) % Q
  {
    var s := a + b;
    if s >= Q then s - Q else s
  }

  function SubMod(a: int, b: int): (r: int)
    requires 0 <= a < Q && 0 <= b < Q
    ensures FitsI32(a - b) && r == (a - b) % Q
  {
    var s := a - b;
    if s < 0 then s + Q else s
  }

  lemma ProductFits(a: int, b: int)
    requires 0 <= a <= Q && 0 <= b <= Q
    ensures 0 <= a * b <= Q * Q && FitsI64(a * b)
  {
    M.ProductBound(a, b, Q, Q);
  }

  function MulMod(a: int, b: int): (r: int)
    requires 0 <= a <= Q && 0 <= b <= Q
    ensures FitsI64(a * b) && 0 <= r < Q
  {
    ProductFits(a, b);
    (a * b) % Q
  }

  // ---------------------------------------------------------------- the table

  function Zeta(k: nat): int {
    Pow(ROOT, BitRev(k, 8)) % Q
  }

  function InvZeta(k: nat): int {
    Q - Zeta(Mirror(k))
  }

  lemma BitRevChildren(k: nat)
    requires k < 128
    ensures 2 * BitRev(2 * k, 8) == BitRev(k, 8) && 2 * BitRev(2 * k + 1, 8) == 256 + BitRev(k, 8)
  {
    Exp2Values();
    BitRevTopClear(k, 7);
    assert (2 * k) / 2 == k && (2 * k + 1) / 2 == k && (2 * k) % 2 == 0 && (2 * k + 1) % 2 == 1;
    assert BitRev(2 * k, 8) == BitRev(k, 7);
    assert BitRev(2 * k + 1, 8) == Exp2(7) + BitRev(k, 7);
  }

  lemma {:induction false} BitRevMirror(m: nat, k: nat)
    requires m <= 7 && Exp2(m) <= k < 2 * Exp2(m)
    ensures Exp2(m) <= Mirror(k) < 2 * Exp2(m) && BitRev(k, 8) + BitRev(Mirror(k), 8) == 256
    decreases m
  {
    Exp2Values();
    hide BitRev;
    if m == 0 {
      BitRevChildren(0);
      BitRevZero(8);
    } else {
      var p := k / 2;
      BitRevMirror(m - 1, p);
      assert Exp2(m - 1) <= 64 by { assert m - 1 in {0, 1, 2, 3, 4, 5, 6}; }
      BitRevMirrorStep(p, Mirror(p), k);
    }
  }

  lemma BitRevMirrorStep(p: nat, r: nat, k: nat)
    requires p < 128 && r < 128 && BitRev(p, 8) + BitRev(r, 8) == 256 && (k == 2 * p || k == 2 * p + 1)
    ensures BitRev(k, 8) + BitRev(if k == 2 * p then 2 * r + 1 else 2 * r, 8) == 256
  {
    hide BitRev;
    BitRevChildren(p);
    BitRevChildren(r);
  }

  // ---------------------------------------------------------------- the table has the required structure

  lemma RootSquared(e: nat, c: int, d: int) returns (f: nat)
    requires Pow(ROOT, e) % Q == c && (c * c) % Q == d
    ensures f == 2 * e && Pow(ROOT, f) % Q == d
  {
    f := 2 * e;
    M.Small(c, Q);
    M.Reduce(c * c, Q);
    NttTheory.SquareOfPower(ROOT, e, c, d, Q);
  }

  lemma RootItself() returns (e: nat)
    ensures e == 1 && Pow(ROOT, e) % Q == 1753
  {
    e := 1;
    assert Pow(ROOT, 1) == ROOT * Pow(ROOT, 0);
  }

  /** 1753 is a primitive 512th root of unity: its 256th power is -1. */
  lemma RootOfMinusOne(n: nat)
    requires n == 256
    ensures Pow(ROOT, n) % Q == Q - 1
  {
    hide Pow;
    var e := RootItself();
    e := RootSquared(e, 1753, 3073009);
    e := RootSquared(e, 3073009, 3602218);
    e := RootSquared(e, 3602218, 5010068);
    e := RootSquared(e, 5010068, 7778734);
    e := RootSquared(e, 7778734, 5178923);
    e := RootSquared(e, 5178923, 3765607);
    e := RootSquared(e, 3765607, 4808194);
    e := RootSquared(e, 4808194, 8380416);
  }

  lemma ZetaSquareRoots()
    ensures NttTheory.SquareRoots(Zeta, 256, Q)
  {
    forall k: nat | 1 <= k < 256
      ensures NttTheory.SquareRootAt(Zeta, k, Q)
    {
      ZetaSquareRoot(k);
    }
  }

  lemma ZetaSquared(k: nat)
    ensures (Zeta(k) * Zeta(k)) % Q == Pow(ROOT, 2 * BitRev(k, 8)) % Q
  {
    var e := BitRev(k, 8);
    M.Reduce(Pow(ROOT, e), Q);
    M.Mul(Zeta(k), Pow(ROOT, e), Zeta(k), Pow(ROOT, e), Q);
    PowAdd(ROOT, e, e);
  }

  lemma MinusPower(n: nat, e: nat)
    requires n == 256
    ensures Pow(ROOT, n + e) % Q == (-Pow(ROOT, e)) % Q
  {
    RootOfMinusOne(n);
    PowAdd(ROOT, n, e);
    M.Mul(Pow(ROOT, n), -1, Pow(ROOT, e), Pow(ROOT, e), Q);
  }

  lemma ZetaSquareRoot(k: nat)
    requires 1 <= k < 256
    ensures NttTheory.SquareRootAt(Zeta, k, Q)
  {
    hide Pow, BitRev;
    ZetaSquared(k);
    if k == 1 {
      BitRevChildren(0);
      BitRevZero(8);
      RootOfMinusOne(2 * BitRev(k, 8));
    } else {
      var p := k / 2;
      BitRevChildren(p);
      M.Reduce(Pow(ROOT, BitRev(p, 8)), Q);
      if k % 2 == 1 {
        MinusPower(2 * BitRev(k, 8) - BitRev(p, 8), BitRev(p, 8));
        M.Add(0, 0, Pow(ROOT, BitRev(p, 8)), Zeta(p), Q);
      }
    }
  }

  lemma ZetaInverses()
    ensures NttTheory.Inverses(Zeta, InvZeta, 256, Q)
  {
    forall k: nat | 1 <= k < 256
      ensures NttTheory.InverseAt(Zeta, InvZeta, k, Q)
    {
      ZetaInverse(k);
    }
  }

  lemma ZetaInverse(k: nat)
    requires 1 <= k < 256
    ensures NttTheory.InverseAt(Zeta, InvZeta, k, Q)
  {
    hide Pow, BitRev, Mirror;
    var m := Level(k);
    Exp2Values();
    assert m <= 7 by { LevelBound(k); }
    BitRevMirror(m, k);
    var z, w := Zeta(k), Zeta(Mirror(k));
    var e, f := BitRev(k, 8), BitRev(Mirror(k), 8);
    M.Reduce(Pow(ROOT, e), Q);
    M.Reduce(Pow(ROOT, f), Q);
    M.Mul(z, Pow(ROOT, e), w, Pow(ROOT, f), Q);
    PowAdd(ROOT, e, f);
    RootOfMinusOne(e + f);
    M.NegatedInverse(z, w, Q);
  }

  /** The table of twiddle factors, filled in index order. */
  method Zetas() returns (z: seq<int>)
    ensures |z| == N && forall i :: 0 <= i < N ==> z[i] == Zeta(i)
  {
    z := [];
    for i := 0 to N
      invariant |z| == i && forall j :: 0 <= j < i ==> z[j] == Zeta(j)
    {
      var v := PowMod(ROOT, BitRev(i, 8), Q);
      z := z + [v];
    }
  }

  // ---------------------------------------------------------------- 1/n

  const N_INVERSE: int := 8347681

  lemma FirstPower(b: nat) returns (e: nat)
    requires b < Q
    ensures e == 1 && Pow(b, e) % Q == b
  {
    e := 1;
    assert Pow(b, 1) == b * Pow(b, 0);
    M.Small(b, Q);
  }

  lemma OddStep(b: nat, b2: nat, e: nat, h: int, r: int) returns (f: nat)
    requires (b * b) % Q == b2 && Pow(b2, e) % Q == h && (b * h) % Q == r
    ensures f == 2 * e + 1 && Pow(b, f) % Q == r
  {
    f := 2 * e + 1;
    HalvePower(b, f, Q);
    M.Reduce(Pow(b2, e), Q);
    M.Scale(b, Pow(b2, e), h, Q);
  }

  lemma EvenStep(b: nat, b2: nat, e: nat, h: int, r: int) returns (f: nat)
    requires e > 0 && (b * b) % Q == b2 && Pow(b2, e) % Q == h && h == r
    ensures f == 2 * e && Pow(b, f) % Q == r
  {
    f := 2 * e;
    HalvePower(b, f, Q);
  }

  /** The value of n^(q-2), by the squarings the loop performs: it is the inverse of n. */
  lemma NInverseValue() returns (e: nat)
    ensures e == Q - 2 && Pow(N, e) % Q == N_INVERSE && (N * N_INVERSE) % Q == 1
  {
    hide Pow;
    e := FirstPower(4840449);
    e := OddStep(5272945, 4840449, e, 4840449, 6576271);
    e := OddStep(1959501, 5272945, e, 6576271, 2737802);
    e := OddStep(3051026, 1959501, e, 2737802, 8244272);
    e := OddStep(3752336, 3051026, e, 8244272, 55183);
    e := OddStep(5298680, 3752336, e, 55183, 4309310);
    e := OddStep(1225309, 5298680, e, 4309310, 3748434);
    e := OddStep(7373642, 1225309, e, 3748434, 6221422);
    e := OddStep(977750, 7373642, e, 6221422, 2637714);
    e := EvenStep(1814252, 977750, e, 2637714, 2637714);
    e := OddStep(4840449, 1814252, e, 2637714, 3946580);
    e := OddStep(5272945, 4840449, e, 3946580, 7011623);
    e := OddStep(1959501, 5272945, e, 7011623, 7629473);
    e := OddStep(3051026, 1959501, e, 7629473, 6056754);
    e := OddStep(4628081, 3051026, e, 6056754, 2491211);
    e := OddStep(6446938, 4628081, e, 2491211, 7561017);
    e := OddStep(4273359, 6446938, e, 7561017, 7650927);
    e := OddStep(5242899, 4273359, e, 7650927, 3938533);
    e := OddStep(7838417, 5242899, e, 3938533, 73491);
    e := OddStep(2365951, 7838417, e, 73491, 7593442);
    e := OddStep(4193792, 2365951, e, 7593442, 8265825);
    e := OddStep(65536, 4193792, e, 8265825, 7332737);
    e := OddStep(256, 65536, e, 7332737, 8347681);
  }

  method NInverse() returns (r: int)
    ensures r == N_INVERSE
  {
    ghost var e := NInverseValue();
    r := PowMod(N, Q - 2, Q);
  }

  // ---------------------------------------------------------------- the transforms in place

  /** What one butterfly computes, from the modular helpers. */
  lemma ForwardAt(b: seq<int>, zeta: int, i: nat)
    requires Reduced(b, Q) && |b| % 2 == 0 && i < |b| / 2 && 0 <= zeta < Q
    ensures 0 <= b[i] < Q && 0 <= b[i + |b| / 2] < Q
    ensures var t := MulMod(zeta, b[i + |b| / 2]);
      0 <= t < Q &&
      AddMod(b[i], t) == Split(b, zeta, Q)[i] && SubMod(b[i], t) == Split(b, zeta, Q)[i + |b| / 2]
  {
    ForwardButterfly(b[i], zeta, b[i + |b| / 2]);
  }

  lemma ForwardButterfly(x: int, z: int, y: int)
    requires 0 <= x < Q && 0 <= y < Q && 0 <= z < Q
    ensures AddMod(x, MulMod(z, y)) == (x + z * y) % Q && SubMod(x, MulMod(z, y)) == (x - z * y) % Q
  {
    var w := z * y;
    M.Reduce(w, Q);
    M.Add(x, x, MulMod(z, y), w, Q);
  }

  /** One forward butterfly. */
  method ForwardStep(a: array<int>, j: nat, len: nat, zeta: int)
    requires a.Length == N && len > 0 && j + len < N && 0 <= a[j] < Q && 0 <= a[j + len] < Q && 0 <= zeta < Q
    modifies a
    ensures var t := MulMod(zeta, old(a[j + len]));
      a[..] == old(a[..])[j := AddMod(old(a[j]), t)][j + len := SubMod(old(a[j]), t)]
  {
    hide AddMod, SubMod, MulMod;
    var t := MulMod(zeta, a[j + len]);
    a[j + len] := SubMod(a[j], t);
    a[j] := AddMod(a[j], t);
  }

  lemma ForwardBlockAt(p: seq<int>, start: nat, len: nat, zeta: int, j: nat)
    requires |p| == N && Reduced(p, Q) && start + 2 * len <= N && 0 <= zeta < Q && start <= j < start + len
    ensures 0 <= p[j] < Q && 0 <= p[j + len] < Q
    ensures var f, t := Replace(p, start, Split(p[start..start + 2 * len], zeta, Q)), MulMod(zeta, p[j + len]);
      f[j] == AddMod(p[j], t) && f[j + len] == SubMod(p[j], t)
  {
    hide Split, AddMod, SubMod, MulMod, Replace;
    var b := p[start..start + 2 * len];
    var m, i := Split(b, zeta, Q), j - start;
    ForwardAt(b, zeta, i);
    ReplaceAt(p, start, m, i);
    ReplaceAt(p, start, m, i + len);
    assert b[i] == p[j] && b[i + len] == p[j + len];
  }

  /** The forward butterflies of one block. */
  method ForwardBlock(a: array<int>, start: nat, len: nat, zeta: int)
    requires a.Length == N && Reduced(a[..], Q) && start + 2 * len <= N && 0 <= zeta < Q
    modifies a
    ensures Reduced(a[..], Q)
    ensures a[..] == Replace(old(a[..]), start, Split(old(a[..])[start..start + 2 * len], zeta, Q))
  {
    hide *;
    Constants();
    ghost var p := a[..];
    ghost var m := Split(p[start..start + 2 * len], zeta, Q);
    ghost var f := Replace(p, start, m);
    ReplaceFacts(p, start, m, Q);
    SplitReduced(p[start..start + 2 * len], zeta, Q);
    PartialEnds(p, f, start, len);
    for j := start to start + len
      invariant a[..] == Partial(p, f, start, len, j)
    {
      ForwardBlockAt(p, start, len, zeta, j);
      PartialNext(p, f, start, len, j);
      ghost var s := a[..];
      assert a[j] == s[j] && a[j + len] == s[j + len];
      ForwardStep(a, j, len, zeta);
    }
  }

  /** Loop arithmetic of one level: c blocks of 2^t, half a block is len. */
  ghost predicate AtLevel(t: nat, c: nat, len: nat) {
    && t <= 8 && c == Exp2(8 - t) && len == (if t == 0 then 0 else Exp2(t - 1))
    && Blocks(N, c, Size(1, t))
  }

  lemma LevelFacts(t: nat, c: nat, len: nat)
    requires AtLevel(t, c, len)
    ensures t == 0 <==> len == 0
    ensures 1 <= c <= N && Blocks(N, c, Size(1, t))
    ensures t > 0 ==> len == Size(1, t - 1) && Size(1, t) == 2 * len && Offset(c, 2 * len) == N && AtLevel(t - 1, 2 * c, len / 2)
    ensures t < 8 ==> AtLevel(t + 1, c / 2, if len == 0 then 1 else 2 * len) && c == 2 * (c / 2)
  {
    Exp2Values();
    assert t in {0, 1, 2, 3, 4, 5, 6, 7, 8};
    if t > 0 {
      BlocksProduct(N, c, 2 * len);
      assert c * (2 * len) == N;
      BlocksHalved(N, c, len);
    }
    if t < 8 {
      BlocksProduct(N, c / 2, Size(1, t + 1));
      BlocksProduct(N, c, Size(1, t));
    }
  }

  lemma LastLevel()
    ensures AtLevel(8, 1, 128) && AtLevel(0, 256, 0)
  {
    Exp2Values();
    BlocksProduct(N, 1, 256);
    BlocksProduct(N, 256, 1);
  }

  lemma Constants()
    ensures Q > 0 && N == 256
  {
  }

  /** One pass of the middle loop of the forward transform. */
  method ForwardLayer(a: array<int>, zetas: seq<int>, k0: nat, len: nat, ghost t: nat, ghost c: nat) returns (k: nat)
    requires a.Length == N && Reduced(a[..], Q) && t >= 1 && AtLevel(t, c, len) && c == k0 + 1
    requires |zetas| == N && forall i :: 0 <= i < N ==> zetas[i] == Zeta(i)
    modifies a
    ensures Reduced(a[..], Q) && k == k0 + c && AtLevel(t - 1, 2 * c, len / 2)
    ensures Rest(a[..], 1, t - 1, 2 * c, 2 * c, Zeta, Q) == Rest(old(a[..]), 1, t, c, c, Zeta, Q)
  {
    hide *;
    k := k0;
    var start := 0;
    ghost var p, i := a[..], 0;
    LevelFacts(t, c, len);
    Constants();
    SplitAllNone(p[..0], len, c, Zeta, Q);
    BlockStart(0, c, 2 * len);
    CountBound(c, 2 * len);
    assert p[..0] + p[0..] == p;
    while start < N
      invariant 0 <= i <= c && k == k0 + i && start == Offset(i, 2 * len) <= N
      invariant Reduced(a[..], Q) && |p[..start]| == start && Blocks(|p[..start]|, i, 2 * len)
      invariant a[..] == SplitAll(p[..start], len, c, i, Zeta, Q) + p[start..]
      decreases N - start
    {
      BlockStart(i, c, 2 * len);
      k := k + 1;
      var zeta := zetas[k];
      ZetaRange(k);
      ghost var s := a[..];
      ForwardBlock(a, start, len, zeta);
      SplitAllNext(p, s, a[..], start, len, c, i, Zeta, Q);
      start := start + 2 * len;
      i := i + 1;
    }
    BlockStart(i, c, 2 * len);
    assert i == c && start == N && p[..start] == p && p[start..] == [];
    SplitKeepsRestAt(p, t, c, len);
    assert a[..] == SplitAll(p, len, c, c, Zeta, Q);
  }

  lemma ZetaRange(k: nat)
    ensures 0 <= Zeta(k) < Q
  {
  }

  lemma SplitKeepsRestAt(p: seq<int>, t: nat, c: nat, len: nat)
    requires |p| == N && t >= 1 && AtLevel(t, c, len)
    ensures Blocks(N, c, 2 * len) && AtLevel(t - 1, 2 * c, len / 2)
    ensures Rest(SplitAll(p, len, c, c, Zeta, Q), 1, t - 1, 2 * c, 2 * c, Zeta, Q) == Rest(p, 1, t, c, c, Zeta, Q)
  {
    LevelFacts(t, c, len);
    SplitKeepsRest(p, 1, t, c, c, Zeta, Q);
  }

  /** The forward transform, in place. */
  method Ntt(a: array<int>)
    requires a.Length == N && Reduced(a[..], Q)
    modifies a
    ensures Reduced(a[..], Q)
    ensures a[..] == NttSpec.Ntt(old(a[..]), 1, 8, 1, Zeta, Q)
  {
    hide *;
    var zetas := Zetas();
    var k: nat, len: nat := 0, 128;
    ghost var t: nat, c: nat := 8, 1;
    Constants();
    LastLevel();
    LevelFacts(t, c, len);
    WholeArray(a[..]);
    while len >= 1
      invariant AtLevel(t, c, len) && k == c - 1 && Reduced(a[..], Q) && t <= 8
      invariant |a[..]| == N && Blocks(|a[..]|, c, Size(1, t)) && Rest(a[..], 1, t, c, c, Zeta, Q) == NttSpec.Ntt(old(a[..]), 1, 8, 1, Zeta, Q)
      decreases t
    {
      LevelFacts(t, c, len);
      k := ForwardLayer(a, zetas, k, len, t, c);
      t, c := t - 1, 2 * c;
      len := len / 2;
    }
    LevelFacts(t, c, len);
    Leaves(a[..], 1, c, c, Zeta, Q);
  }

  lemma WholeArray(a: seq<int>)
    requires |a| == N
    ensures Size(1, 8) == N && Blocks(N, 1, Size(1, 8))
    ensures Rest(a, 1, 8, 1, 1, Zeta, Q) == NttSpec.Ntt(a, 1, 8, 1, Zeta, Q)
    ensures Done(a, 1, 8, 1, 1, InvZeta, Q) == NttSpec.INtt(a, 1, 8, 1, InvZeta, Q)
  {
    Exp2Values();
    Whole(a, 1, 8, 1, Zeta, Q);
    Whole(a, 1, 8, 1, InvZeta, Q);
  }

  // ---------------------------------------------------------------- the inverse in place

  lemma InverseAt(l: seq<int>, r: seq<int>, y: int, i: nat)
    requires |l| == |r| && i < |l| && Reduced(l, Q) && Reduced(r, Q) && 0 <= y <= Q
    ensures 0 <= l[i] < Q && 0 <= r[i] < Q && 0 <= SubMod(l[i], r[i]) <= Q
    ensures AddMod(l[i], r[i]) == Merge(l, r, y, Q)[i]
    ensures MulMod(y, SubMod(l[i], r[i])) == Merge(l, r, y, Q)[i + |l|]
  {
    var x, z := l[i], r[i];
    M.Reduce(x - z, Q);
    M.Scale(y, SubMod(x, z), x - z, Q);
  }

  /** One inverse butterfly. */
  method InverseStep(a: array<int>, j: nat, len: nat, zeta: int)
    requires a.Length == N && len > 0 && j + len < N && 0 <= a[j] < Q && 0 <= a[j + len] < Q && 0 <= zeta <= Q
    modifies a
    ensures a[..] == old(a[..])[j := AddMod(old(a[j]), old(a[j + len]))]
                              [j + len := MulMod(zeta, SubMod(old(a[j]), old(a[j + len])))]
  {
    hide AddMod, SubMod, MulMod;
    SubInRange(a[j], a[j + len]);
    var t := a[j];
    a[j] := AddMod(t, a[j + len]);
    a[j + len] := MulMod(zeta, SubMod(t, a[j + len]));
  }

  lemma SubInRange(x: int, y: int)
    requires 0 <= x < Q && 0 <= y < Q
    ensures 0 <= SubMod(x, y) <= Q
  {
  }

  lemma InverseBlockAt(p: seq<int>, start: nat, len: nat, zeta: int, j: nat)
    requires |p| == N && Reduced(p, Q) && start + 2 * len <= N && 0 <= zeta <= Q && start <= j < start + len
    ensures 0 <= p[j] < Q && 0 <= p[j + len] < Q && 0 <= SubMod(p[j], p[j + len]) <= Q
    ensures var f := MergeBlock(p, start, len, zeta, Q);
      f[j] == AddMod(p[j], p[j + len]) && f[j + len] == MulMod(zeta, SubMod(p[j], p[j + len]))
  {
    hide Merge, AddMod, SubMod, MulMod, Replace;
    var l, r := p[start..start + len], p[start + len..start + 2 * len];
    var m, i := Merge(l, r, zeta, Q), j - start;
    InverseAt(l, r, zeta, i);
    ReplaceAt(p, start, m, i);
    ReplaceAt(p, start, m, i + len);
    assert l[i] == p[j] && r[i] == p[j + len];
  }

  /** The inverse butterflies of one block. */
  method InverseBlock(a: array<int>, start: nat, len: nat, zeta: int)
    requires a.Length == N && Reduced(a[..], Q) && start + 2 * len <= N && 0 <= zeta <= Q
    modifies a
    ensures Reduced(a[..], Q)
    ensures a[..] == MergeBlock(old(a[..]), start, len, zeta, Q)
  {
    hide *;
    Constants();
    ghost var p := a[..];
    ghost var f := MergeBlock(p, start, len, zeta, Q);
    MergeBlockFacts(p, start, len, zeta, Q);
    PartialEnds(p, f, start, len);
    for j := start to start + len
      invariant a[..] == Partial(p, f, start, len, j)
    {
      InverseBlockAt(p, start, len, zeta, j);
      PartialNext(p, f, start, len, j);
      ghost var s := a[..];
      assert a[j] == s[j] && a[j + len] == s[j + len];
      InverseStep(a, j, len, zeta);
    }
  }

  lemma MirrorAt(t: nat, c: nat, len: nat, i: nat)
    requires AtLevel(t, c, len) && i < c
    ensures InvZeta(c + i) == Q - Zeta(2 * c - 1 - i) && 0 <= InvZeta(c + i) <= Q
  {
    hide *;
    LevelCount(t, c, len);
    MirrorOfLevel(8 - t, i);
    InvZetaOf(c + i, 2 * c - 1 - i);
  }

  lemma LevelCount(t: nat, c: nat, len: nat)
    requires AtLevel(t, c, len)
    ensures t <= 8 && c == Exp2(8 - t)
  {
  }

  lemma InvZetaOf(k: nat, m: nat)
    requires Mirror(k) == m
    ensures InvZeta(k) == Q - Zeta(m) && 0 <= InvZeta(k) <= Q
  {
    ZetaRange(m);
  }

  /** One pass of the middle loop of the inverse transform. */
  method InverseLayer(a: array<int>, zetas: seq<int>, k0: nat, len: nat, ghost t: nat, ghost c: nat) returns (k: nat)
    requires a.Length == N && Reduced(a[..], Q) && t >= 1 && AtLevel(t, c, len) && k0 == 2 * c
    requires |zetas| == N && forall i :: 0 <= i < N ==> zetas[i] == Zeta(i)
    modifies a
    ensures Reduced(a[..], Q) && k == c && Blocks(N, c, 2 * len)
    ensures a[..] == MergeAll(old(a[..]), len, c, c, InvZeta, Q)
  {
    hide *;
    k := k0;
    var start := 0;
    ghost var p, i := a[..], 0;
    LevelFacts(t, c, len);
    Constants();
    MergeAllNone(p[..0], len, c, InvZeta, Q);
    BlockStart(0, c, 2 * len);
    CountBound(c, 2 * len);
    assert p[..0] + p[0..] == p;
    while start < N
      invariant 0 <= i <= c && k + i == 2 * c && start == Offset(i, 2 * len) <= N
      invariant Reduced(a[..], Q) && |p[..start]| == start && Blocks(|p[..start]|, i, 2 * len)
      invariant a[..] == MergeAll(p[..start], len, c, i, InvZeta, Q) + p[start..]
      decreases N - start
    {
      BlockStart(i, c, 2 * len);
      k := k - 1;
      MirrorAt(t, c, len, i);
      var zeta := Q - zetas[k];
      ghost var s := a[..];
      InverseBlock(a, start, len, zeta);
      MergeAllNext(p, s, a[..], start, len, c, i, InvZeta, Q);
      start := start + 2 * len;
      i := i + 1;
    }
    BlockStart(i, c, 2 * len);
    assert i == c && start == N && p[..start] == p && p[start..] == [];
    assert a[..] == MergeAll(p, len, c, c, InvZeta, Q);
  }

  /** The inverse transform with its scaling. */
  function InvNttSpec(a: seq<int>): (r: seq<int>)
    requires |a| == N
    ensures |r| == N
  {
    Exp2Values();
    hide NttSpec.INtt;
    var u := NttSpec.INtt(a, 1, 8, 1, InvZeta, Q);
    seq(N, i requires 0 <= i < N => (u[i] * N_INVERSE) % Q)
  }

  function NttFun(a: seq<int>): (r: seq<int>)
    requires |a| == N
    ensures |r| == N
  {
    Exp2Values();
    hide NttSpec.Ntt;
    NttSpec.Ntt(a, 1, 8, 1, Zeta, Q)
  }

  lemma MergeOfDoneAt(p: seq<int>, t: nat, c: nat, len: nat)
    requires |p| == N && t >= 1 && AtLevel(t, c, len) && AtLevel(t - 1, 2 * c, len / 2)
    ensures Blocks(N, c, 2 * len) && Blocks(N, 2 * c, Size(1, t - 1)) && Blocks(N, c, Size(1, t))
    ensures MergeAll(Done(p, 1, t - 1, 2 * c, 2 * c, InvZeta, Q), len, c, c, InvZeta, Q) == Done(p, 1, t, c, c, InvZeta, Q)
  {
    LevelFacts(t, c, len);
    LevelFacts(t - 1, 2 * c, len / 2);
    MergeOfDone(p, 1, t, c, c, InvZeta, Q);
  }

  /** The unscaled part of the inverse transform, in place. */
  method InverseLayers(a: array<int>)
    requires a.Length == N && Reduced(a[..], Q)
    modifies a
    ensures Reduced(a[..], Q) && N == Size(1, 8)
    ensures a[..] == NttSpec.INtt(old(a[..]), 1, 8, 1, InvZeta, Q)
  {
    hide *;
    var zetas := Zetas();
    var k: nat, len: nat := 256, 1;
    ghost var t: nat, c: nat, p := 0, 256, a[..];
    Constants();
    LastLevel();
    LevelFacts(t, c, 0);
    Leaves(p, 1, c, c, InvZeta, Q);
    while len < N
      invariant t <= 8 && AtLevel(t, c, if t == 0 then 0 else len / 2) && k == c && Reduced(a[..], Q)
      invariant len < N <==> t < 8
      invariant t < 8 ==> AtLevel(t + 1, c / 2, len) && c == 2 * (c / 2)
      invariant t == 8 ==> c == 1
      invariant |p| == N && Blocks(|p|, c, Size(1, t)) && a[..] == Done(p, 1, t, c, c, InvZeta, Q)
      decreases 8 - t
    {
      ghost var c' := c / 2;
      LevelFacts(t + 1, c', len);
      k := InverseLayer(a, zetas, k, len, t + 1, c');
      MergeOfDoneAt(p, t + 1, c', len);
      t, c := t + 1, c';
      len := 2 * len;
      NextLen(t, c, len);
    }
    WholeArray(p);
  }

  lemma NextLen(t: nat, c: nat, len: nat)
    requires 1 <= t <= 8 && AtLevel(t, c, len / 2) && len % 2 == 0
    ensures len <= N && (len < N <==> t < 8) && (t == 8 ==> c == 1)
    ensures t < 8 ==> AtLevel(t + 1, c / 2, len) && c == 2 * (c / 2)
  {
    LevelFacts(t, c, len / 2);
    Exp2Values();
    assert t in {1, 2, 3, 4, 5, 6, 7, 8};
  }

  /** The inverse transform, in place, including the final 1/n scaling. */
  method InvNtt(a: array<int>)
    requires a.Length == N && Reduced(a[..], Q)
    modifies a
    ensures Reduced(a[..], Q)
    ensures a[..] == InvNttSpec(old(a[..]))
  {
    hide NttSpec.INtt;
    InverseLayers(a);
    ghost var u := a[..];
    var ninv := NInverse();
    for i := 0 to N
      invariant forall j :: 0 <= j < i ==> a[j] == (u[j] * N_INVERSE) % Q
      invariant forall j :: i <= j < N ==> a[j] == u[j]
    {
      a[i] := MulMod(a[i], ninv);
    }
  }

  // ---------------------------------------------------------------- what the transforms mean

  lemma InvNttReduced(a: seq<int>)
    requires |a| == N
    ensures Reduced(InvNttSpec(a), Q)
  {
    hide NttSpec.INtt;
  }

  lemma NttFunReduced(a: seq<int>)
    requires |a| == N && Reduced(a, Q)
    ensures Reduced(NttFun(a), Q)
  {
    hide NttSpec.Ntt, NttSpec.INtt;
    Exp2Values();
    NttReduced(a, 1, 8, 1, Zeta, Q);
  }

  /** x * 256 * 256^-1 is x. */
  lemma Unscale(d: int, x: int)
    requires d % Q == (N * x) % Q && 0 <= x < Q
    ensures (d * N_INVERSE) % Q == x
  {
    M.Scale(N_INVERSE, d, N * x, Q);
    assert N_INVERSE * (N * x) == x + 254994 * x * Q + (N_INVERSE * N - 1 - 254994 * Q) * x;
    assert (N * N_INVERSE) % Q == 1;
    M.Multiple(N_INVERSE * (N * x), x, (N * N_INVERSE) / Q * x, Q);
    M.Small(x, Q);
  }

  /** The inverse transform undoes the forward transform. */
  lemma InverseOfForward(a: seq<int>)
    requires |a| == N && Reduced(a, Q)
    ensures InvNttSpec(NttFun(a)) == a
  {
    hide NttSpec.Ntt, NttSpec.INtt;
    Exp2Values();
    ZetaInverses();
    NttTheory.INttOfNtt(a, 1, 8, 1, Zeta, InvZeta, 256, Q);
    var u := NttSpec.INtt(NttFun(a), 1, 8, 1, InvZeta, Q);
    forall i | 0 <= i < N
      ensures InvNttSpec(NttFun(a))[i] == a[i]
    {
      Unscale(u[i], a[i]);
    }
  }

  /** The forward transform undoes the inverse transform. */
  lemma ForwardOfInverse(a: seq<int>)
    requires |a| == N && Reduced(a, Q)
    ensures NttFun(InvNttSpec(a)) == a
  {
    hide NttSpec.Ntt, NttSpec.INtt;
    Exp2Values();
    ZetaInverses();
    var u, w := NttSpec.INtt(a, 1, 8, 1, InvZeta, Q), InvNttSpec(a);
    NttTheory.NttOfINtt(a, 1, 8, 1, Zeta, InvZeta, 256, Q);
    forall i | 0 <= i < N
      ensures w[i] % Q == (N_INVERSE * u[i]) % Q
    {
      M.Reduce(u[i] * N_INVERSE, Q);
    }
    NttTheory.NttMultiple(w, N_INVERSE, u, 1, 8, 1, Zeta, Q);
    NttReduced(w, 1, 8, 1, Zeta, Q);
    var f, g := NttFun(w), NttSpec.Ntt(u, 1, 8, 1, Zeta, Q);
    forall i | 0 <= i < N
      ensures f[i] == a[i]
    {
      Unscale(g[i], a[i]);
      M.Small(f[i], Q);
    }
  }

  /**
   Main result: going through the transform computes the schoolbook negacyclic
   product in Z_q[X]/(X^256 + 1).
   */
  lemma NttMultiplies(a: seq<int>, b: seq<int>)
    requires |a| == |b| == N && Reduced(a, Q) && Reduced(b, Q)
    ensures InvNttSpec(NttTheory.Pointwise(NttFun(a), NttFun(b), Q)) == NttTheory.Product(a, b, Q)
  {
    hide NttSpec.Ntt, NttSpec.INtt;
    Exp2Values();
    ZetaSquareRoots();
    NttTheory.NttOfProduct(a, b, 8, Zeta, Q);
    NttTheory.ProductReduced(a, b, Q);
    InverseOfForward(NttTheory.Product(a, b, Q));
  }
}
