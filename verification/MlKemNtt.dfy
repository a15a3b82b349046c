/**
 The transforms of ML-KEM-768: coefficients modulo q = 3329, 256 of them, seven levels
 down to pairs, twiddle factors 17^brv7(k), and products of pairs modulo X^2 - 17^(2 brv7(i) + 1).
 */
module MlKemNtt {
  import opened NttSpec
  import opened NttBlocks
  import opened NttLoops
  import opened NttPairs
  import opened PowerModulo
  import NttTheory
  import M = Modular

  const Q: nat := 3329
  const ROOT: nat := 17

  predicate FitsI32(x: int) {
    -0x8000_0000 <= x < 0x8000_0000
  }

  /** Euclidean remainder of a 32-bit value. */
  function Reduce(x: int): (r: int)
    requires FitsI32(x)
    ensures 0 <= r < Q && r % Q == x % Q
  {
    M.Reduce(x, Q);
    x % Q
  }

  lemma ProductFits(a: int, b: int)
    requires 0 <= a <= Q && 0 <= b <= Q
    ensures 0 <= a * b <= 11082241
  {
    M.ProductBound(a, b, Q, Q);
  }

  // ---------------------------------------------------------------- the tables

  function Zeta(k: nat): int {
    Pow(ROOT, BitRev(k, 7)) % Q
  }

  function Gamma(i: nat): int {
    Pow(ROOT, 2 * BitRev(i, 7) + 1) % Q
  }

  /** The inverse loop subtracts in the other order, so its factors are the negated entries. */
  function InvZeta(k: nat): int {
    Q - Zeta(Mirror(k))
  }

  lemma ZetaRange(k: nat)
    ensures 0 <= Zeta(k) < Q && 0 <= Gamma(k) < Q
  {
    M.Reduce(Pow(ROOT, BitRev(k, 7)), Q);
    M.Reduce(Pow(ROOT, 2 * BitRev(k, 7) + 1), Q);
  }

  lemma BitRevChildren(k: nat)
    requires k < 64
    ensures 2 * BitRev(2 * k, 7) == BitRev(k, 7) && 2 * BitRev(2 * k + 1, 7) == 128 + BitRev(k, 7)
  {
    Exp2Values();
    BitRevTopClear(k, 6);
    assert (2 * k) / 2 == k && (2 * k + 1) / 2 == k && (2 * k) % 2 == 0 && (2 * k + 1) % 2 == 1;
    assert BitRev(2 * k, 7) == BitRev(k, 6);
    assert BitRev(2 * k + 1, 7) == Exp2(6) + BitRev(k, 6);
  }

  lemma {:induction false} BitRevMirror(m: nat, k: nat)
    requires m <= 6 && Exp2(m) <= k < 2 * Exp2(m)
    ensures Exp2(m) <= Mirror(k) < 2 * Exp2(m) && BitRev(k, 7) + BitRev(Mirror(k), 7) == 128
    decreases m
  {
    Exp2Values();
    hide BitRev;
    if m == 0 {
      BitRevChildren(0);
      BitRevZero(7);
    } else {
      var p := k / 2;
      BitRevMirror(m - 1, p);
      assert Exp2(m - 1) <= 32 by { assert m - 1 in {0, 1, 2, 3, 4, 5}; }
      BitRevMirrorStep(p, Mirror(p), k);
    }
  }

  lemma BitRevMirrorStep(p: nat, r: nat, k: nat)
    requires p < 64 && r < 64 && BitRev(p, 7) + BitRev(r, 7) == 128 && (k == 2 * p || k == 2 * p + 1)
    ensures BitRev(k, 7) + BitRev(if k == 2 * p then 2 * r + 1 else 2 * r, 7) == 128
  {
    hide BitRev;
    BitRevChildren(p);
    BitRevChildren(r);
  }

  lemma RootSquared(e: nat, c: int, d: int) returns (f: nat)
    requires Pow(ROOT, e) % Q == c && (c * c) % Q == d
    ensures f == 2 * e && Pow(ROOT, f) % Q == d
  {
    f := 2 * e;
    M.Small(c, Q);
    M.Reduce(c * c, Q);
    NttTheory.SquareOfPower(ROOT, e, c, d, Q);
  }

  lemma RootItself() returns (e: nat)
    ensures e == 1 && Pow(ROOT, e) % Q == 17
  {
    e := 1;
    assert Pow(ROOT, 1) == ROOT * Pow(ROOT, 0);
  }

  /** 17 is a primitive 256th root of unity: its 128th power is -1. */
  lemma RootOfMinusOne(n: nat)
    requires n == 128
    ensures Pow(ROOT, n) % Q == Q - 1
  {
    hide Pow;
    var e := RootItself();
    e := RootSquared(e, 17, 289);
    e := RootSquared(e, 289, 296);
    e := RootSquared(e, 296, 1062);
    e := RootSquared(e, 1062, 2642);
    e := RootSquared(e, 2642, 2580);
    e := RootSquared(e, 2580, 1729);
    e := RootSquared(e, 1729, 3328);
  }

  lemma ZetaSquared(k: nat)
    ensures (Zeta(k) * Zeta(k)) % Q == Pow(ROOT, 2 * BitRev(k, 7)) % Q
  {
    var e := BitRev(k, 7);
    M.Reduce(Pow(ROOT, e), Q);
    M.Mul(Zeta(k), Pow(ROOT, e), Zeta(k), Pow(ROOT, e), Q);
    PowAdd(ROOT, e, e);
  }

  lemma MinusPower(n: nat, e: nat)
    requires n == 128
    ensures Pow(ROOT, n + e) % Q == (-Pow(ROOT, e)) % Q
  {
    RootOfMinusOne(n);
    PowAdd(ROOT, n, e);
    M.Mul(Pow(ROOT, n), -1, Pow(ROOT, e), Pow(ROOT, e), Q);
  }

  lemma ZetaSquareRoot(k: nat)
    requires 1 <= k < 128
    ensures NttTheory.SquareRootAt(Zeta, k, Q)
  {
    hide Pow, BitRev;
    ZetaSquared(k);
    if k == 1 {
      BitRevChildren(0);
      BitRevZero(7);
      RootOfMinusOne(2 * BitRev(k, 7));
    } else {
      var p := k / 2;
      BitRevChildren(p);
      M.Reduce(Pow(ROOT, BitRev(p, 7)), Q);
      if k % 2 == 1 {
        MinusPower(2 * BitRev(k, 7) - BitRev(p, 7), BitRev(p, 7));
        M.Add(0, 0, Pow(ROOT, BitRev(p, 7)), Zeta(p), Q);
      }
    }
  }

  lemma ZetaSquareRoots()
    ensures NttTheory.SquareRoots(Zeta, 128, Q)
  {
    forall k: nat | 1 <= k < 128
      ensures NttTheory.SquareRootAt(Zeta, k, Q)
    {
      ZetaSquareRoot(k);
    }
  }

  lemma {:induction false} LevelBelow(k: nat, m: nat)
    requires 1 <= k < Exp2(m)
    ensures Level(k) < m
  {
    if Level(k) >= m {
      Exp2Grows(m, Level(k));
    }
  }

  lemma ZetaInverse(k: nat)
    requires 1 <= k < 128
    ensures NttTheory.InverseAt(Zeta, InvZeta, k, Q)
  {
    hide Pow, BitRev, Mirror;
    var m := Level(k);
    Exp2Values();
    LevelBelow(k, 7);
    BitRevMirror(m, k);
    var z, w := Zeta(k), Zeta(Mirror(k));
    var e, f := BitRev(k, 7), BitRev(Mirror(k), 7);
    M.Reduce(Pow(ROOT, e), Q);
    M.Reduce(Pow(ROOT, f), Q);
    M.Mul(z, Pow(ROOT, e), w, Pow(ROOT, f), Q);
    PowAdd(ROOT, e, f);
    RootOfMinusOne(e + f);
    M.NegatedInverse(z, w, Q);
  }

  lemma ZetaInverses()
    ensures NttTheory.Inverses(Zeta, InvZeta, 128, Q)
  {
    forall k: nat | 1 <= k < 128
      ensures NttTheory.InverseAt(Zeta, InvZeta, k, Q)
    {
      ZetaInverse(k);
    }
  }

  /** 2 brv7(i) + 1 in terms of the entry of the node above leaf i. */
  lemma GammaExponent(i: nat)
    requires i < 128
    ensures 2 * BitRev(i, 7) + 1 == (if i % 2 == 1 then 128 else 0) + BitRev(64 + i / 2, 7)
  {
    Exp2Values();
    var j := i / 2;
    BitRevTopClear(j, 6);
    TopBit(j, 6);
    assert BitRev(i, 7) == (if i % 2 == 1 then Exp2(6) else 0) + BitRev(j, 6);
  }

  lemma {:induction false} TopBit(j: nat, bits: nat)
    requires j < Exp2(bits)
    ensures BitRev(Exp2(bits) + j, bits + 1) == 1 + BitRev(j, bits + 1)
    decreases bits
  {
    if bits == 0 {
      assert Exp2(0) == 1 && BitRev(1, 1) == Exp2(0) + BitRev(0, 0) && BitRev(0, 1) == 0;
    } else {
      TopBit(j / 2, bits - 1);
      assert (Exp2(bits) + j) / 2 == Exp2(bits - 1) + j / 2 && (Exp2(bits) + j) % 2 == j % 2;
    }
  }

  /** The gammas are the constants of the leaves. */
  lemma GammaAt(i: nat)
    requires i < 128
    ensures LeafConstantAt(Gamma, Zeta, 7, i, Q)
  {
    hide Pow, BitRev;
    Exp2Values();
    GammaExponent(i);
    LeafIs(i);
    var e := BitRev(64 + i / 2, 7);
    M.Reduce(Pow(ROOT, e), Q);
    M.Reduce(Pow(ROOT, 2 * BitRev(i, 7) + 1), Q);
    if i % 2 == 1 {
      MinusPower(128, e);
      M.Add(0, 0, Pow(ROOT, e), Zeta(64 + i / 2), Q);
    }
  }

  lemma LeafIs(i: nat)
    requires i < 128
    ensures NttTheory.Leaf(1, 7, i) == 128 + i
    ensures NttTheory.NodeConst(Zeta, 128 + i) == if i % 2 == 0 then Zeta(64 + i / 2) else -Zeta(64 + i / 2)
  {
    Exp2Values();
  }

  lemma Gammas()
    ensures LeafConstants(Gamma, Zeta, 7, Q)
  {
    Exp2Values();
    forall i: nat | i < Exp2(7)
      ensures LeafConstantAt(Gamma, Zeta, 7, i, Q)
    {
      GammaAt(i);
    }
  }

  predicate IsTable(zetas: seq<int>) {
    |zetas| == 128 && forall i :: 0 <= i < 128 ==> zetas[i] == Zeta(i)
  }

  /** An entry of the table, for a level of c blocks that is not the last one. */
  lemma EntryOf(zetas: seq<int>, t: nat, c: nat, len: nat, i: nat)
    requires IsTable(zetas) && t >= 1 && AtLevel(t, c, len) && i < 2 * c
    ensures i < |zetas| && zetas[i] == Zeta(i) && 0 <= Zeta(i) < Q
  {
    SameCount(t, c, len);
    ZetaRange(i);
  }

  /** Both tables, filled in index order. */
  method Tables() returns (zetas: seq<int>, gammas: seq<int>)
    ensures IsTable(zetas)
    ensures |gammas| == 128 && forall i :: 0 <= i < 128 ==> gammas[i] == Gamma(i)
  {
    zetas, gammas := [], [];
    for i := 0 to 128
      invariant |zetas| == |gammas| == i
      invariant forall j :: 0 <= j < i ==> zetas[j] == Zeta(j) && gammas[j] == Gamma(j)
    {
      var z := PowMod(ROOT, BitRev(i, 7), Q);
      var g := PowMod(ROOT, 2 * BitRev(i, 7) + 1, Q);
      zetas, gammas := zetas + [z], gammas + [g];
    }
  }

  // ---------------------------------------------------------------- loop arithmetic

  /** c blocks of 2^(t+1), half a block is len. */
  ghost predicate AtLevel(t: nat, c: nat, len: nat) {
    t <= 7 && c == Exp2(7 - t) && len == Exp2(t) && Blocks(N, c, Size(2, t))
  }

  lemma LevelFacts(t: nat, c: nat, len: nat)
    requires AtLevel(t, c, len)
    ensures (t == 0 <==> len < 2) && 1 <= c <= 128 && len >= 1 && Blocks(N, c, Size(2, t)) && Size(2, t) == 2 * len
    ensures Offset(c, 2 * len) == N && (len > 64 ==> t == 7) && (t == 7 ==> c == 1 && len == 128)
    ensures t > 0 ==> len == Size(2, t - 1) && AtLevel(t - 1, 2 * c, len / 2)
    ensures t < 7 ==> AtLevel(t + 1, c / 2, 2 * len) && c == 2 * (c / 2)
  {
    Exp2Values();
    PairSize(t);
    assert t in {0, 1, 2, 3, 4, 5, 6, 7};
    BlocksProduct(N, c, 2 * len);
    if t > 0 {
      PairSize(t - 1);
      BlocksHalved(N, c, len);
    }
    if t < 7 {
      PairSize(t + 1);
      BlocksProduct(N, c / 2, Size(2, t + 1));
    }
  }

  lemma Ends()
    ensures AtLevel(7, 1, 128) && AtLevel(0, 128, 1) && Size(2, 7) == N && Q > 1
  {
    Exp2Values();
    PairSize(7);
    PairSize(0);
    BlocksProduct(N, 1, 256);
    BlocksProduct(N, 128, 2);
  }

  // ---------------------------------------------------------------- the forward transform

  function ButterflyLo(x: int, y: int, z: int): int {
    (x + z * y) % Q
  }

  function ButterflyHi(x: int, y: int, z: int): int {
    (x - z * y) % Q
  }

  lemma ForwardValues(x: int, y: int, z: int)
    requires 0 <= x < Q && 0 <= y < Q && 0 <= z < Q
    ensures FitsI32(z * y) && FitsI32(x + Reduce(z * y)) && FitsI32(x - Reduce(z * y))
    ensures Reduce(x + Reduce(z * y)) == ButterflyLo(x, y, z) && Reduce(x - Reduce(z * y)) == ButterflyHi(x, y, z)
  {
    ProductFits(z, y);
    M.Add(x, x, Reduce(z * y), z * y, Q);
  }

  /** The entries of a split block. */
  lemma SplitAt(b: seq<int>, z: int, i: nat)
    requires |b| % 2 == 0 && i < |b| / 2
    ensures Split(b, z, Q)[i] == ButterflyLo(b[i], b[i + |b| / 2], z) && Split(b, z, Q)[i + |b| / 2] == ButterflyHi(b[i], b[i + |b| / 2], z)
  {
  }

  /** p with the forward butterflies of the block at start done. */
  function SplitBlock(p: seq<int>, start: nat, len: nat, z: int): (f: seq<int>)
    requires start + 2 * len <= |p|
    ensures |f| == |p|
  {
    Replace(p, start, Split(p[start..start + 2 * len], z, Q))
  }

  lemma SplitBlockFacts(p: seq<int>, start: nat, len: nat, z: int)
    requires |p| == N && start + 2 * len <= |p|
    ensures forall i :: 0 <= i < |p| && !(start <= i < start + 2 * len) ==> SplitBlock(p, start, len, z)[i] == p[i]
    ensures Reduced(p, Q) ==> Reduced(SplitBlock(p, start, len, z), Q)
  {
    hide Split, Replace;
    ReplaceFacts(p, start, Split(p[start..start + 2 * len], z, Q), Q);
    SplitReduced(p[start..start + 2 * len], z, Q);
  }

  lemma SplitBlockAt(p: seq<int>, start: nat, len: nat, z: int, j: nat)
    requires |p| == N && start + 2 * len <= N && start <= j < start + len
    ensures SplitBlock(p, start, len, z)[j] == ButterflyLo(p[j], p[j + len], z)
    ensures SplitBlock(p, start, len, z)[j + len] == ButterflyHi(p[j], p[j + len], z)
  {
    hide Split, Replace, ButterflyLo, ButterflyHi;
    var b, i := p[start..start + 2 * len], j - start;
    SplitAt(b, z, i);
    ReplaceAt(p, start, Split(b, z, Q), i);
    ReplaceAt(p, start, Split(b, z, Q), i + len);
    assert b[i] == p[j] && b[i + len] == p[j + len];
  }

  lemma ForwardBlockAt(p: seq<int>, start: nat, len: nat, z: int, j: nat)
    requires |p| == N && Reduced(p, Q) && start + 2 * len <= N && 0 <= z < Q && start <= j < start + len
    ensures 0 <= p[j] < Q && 0 <= p[j + len] < Q && FitsI32(z * p[j + len])
    ensures var f, t := SplitBlock(p, start, len, z), Reduce(z * p[j + len]);
      FitsI32(p[j] + t) && FitsI32(p[j] - t) && f[j] == Reduce(p[j] + t) && f[j + len] == Reduce(p[j] - t)
  {
    hide SplitBlock, Reduce, ButterflyLo, ButterflyHi;
    SplitBlockAt(p, start, len, z, j);
    ForwardValues(p[j], p[j + len], z);
  }

  /** The forward butterflies of one block. */
  method ForwardBlock(a: array<int>, start: nat, len: nat, zeta: int)
    requires a.Length == N && Reduced(a[..], Q) && len > 0 && start + 2 * len <= N && 0 <= zeta < Q
    modifies a
    ensures Reduced(a[..], Q)
    ensures a[..] == SplitBlock(old(a[..]), start, len, zeta)
  {
    hide *;
    Ends();
    ghost var p := a[..];
    ghost var f := SplitBlock(p, start, len, zeta);
    SplitBlockFacts(p, start, len, zeta);
    PartialEnds(p, f, start, len);
    for j := start to start + len
      invariant a[..] == Partial(p, f, start, len, j)
    {
      ForwardBlockAt(p, start, len, zeta, j);
      PartialNext(p, f, start, len, j);
      ghost var s := a[..];
      assert a[j] == s[j] && a[j + len] == s[j + len];
      var t := Reduce(zeta * a[j + len]);
      a[j + len] := Reduce(a[j] - t);
      a[j] := Reduce(a[j] + t);
      assert a[..] == s[j := f[j]][j + len := f[j + len]];
    }
  }

  lemma SplitKeepsRestAt(p: seq<int>, t: nat, c: nat, len: nat)
    requires |p| == N && t >= 1 && AtLevel(t, c, len)
    ensures Blocks(N, c, 2 * len) && Blocks(N, c, Size(2, t)) && Blocks(N, 2 * c, Size(2, t - 1))
    ensures Rest(SplitAll(p, len, c, c, Zeta, Q), 2, t - 1, 2 * c, 2 * c, Zeta, Q) == Rest(p, 2, t, c, c, Zeta, Q)
  {
    LevelFacts(t, c, len);
    SplitKeepsRest(p, 2, t, c, c, Zeta, Q);
  }

  /** n of the c blocks of a level have been split. */
  ghost predicate ForwardState(s: seq<int>, p: seq<int>, start: nat, len: nat, c: nat, n: nat) {
    && |p| == N && start == Offset(n, 2 * len) <= N && Blocks(|p[..start]|, n, 2 * len)
    && s == SplitAll(p[..start], len, c, n, Zeta, Q) + p[start..]
  }

  lemma ForwardStart(p: seq<int>, len: nat, c: nat)
    requires |p| == N && len > 0 && Offset(c, 2 * len) == N
    ensures ForwardState(p, p, 0, len, c, 0)
  {
    hide SplitAll;
    BlockStart(0, c, 2 * len);
    SplitAllNone(p[..0], len, c, Zeta, Q);
    assert p[..0] + p[0..] == p;
  }

  lemma ForwardNext(p: seq<int>, s: seq<int>, s': seq<int>, start: nat, len: nat, c: nat, n: nat)
    requires ForwardState(s, p, start, len, c, n) && n < c && len > 0 && Offset(c, 2 * len) == N
    requires |s| == N && start + 2 * len <= N && s' == SplitBlock(s, start, len, Zeta(c + n))
    ensures ForwardState(s', p, start + 2 * len, len, c, n + 1)
  {
    hide SplitAll, Split, Zeta, Replace, Offset;
    BlockStart(n, c, 2 * len);
    SplitAllNext(p, s, s', start, len, c, n, Zeta, Q);
  }

  lemma ForwardEnd(p: seq<int>, s: seq<int>, start: nat, t: nat, c: nat, len: nat, n: nat)
    requires ForwardState(s, p, start, len, c, n) && n <= c && start >= N && t >= 1 && AtLevel(t, c, len)
    ensures |s| == N && Blocks(N, c, Size(2, t)) && Blocks(N, 2 * c, Size(2, t - 1)) && n == c
    ensures Rest(s, 2, t - 1, 2 * c, 2 * c, Zeta, Q) == Rest(p, 2, t, c, c, Zeta, Q)
  {
    hide *;
    LevelFacts(t, c, len);
    StateStart(s, p, start, len, c, n);
    LevelFacts(t - 1, 2 * c, len / 2);
    ForwardWhole(p, s, start, len, c);
    SplitKeepsRestAt(p, t, c, len);
  }

  lemma ForwardWhole(p: seq<int>, s: seq<int>, start: nat, len: nat, c: nat)
    requires ForwardState(s, p, start, len, c, c) && start >= N && Blocks(N, c, 2 * len)
    ensures |p| == |s| == N && s == SplitAll(p, len, c, c, Zeta, Q)
  {
    hide SplitAll, Zeta, Offset;
    assert p[..start] == p && p[start..] == [];
    assert s == SplitAll(p, len, c, c, Zeta, Q) + [];
  }

  lemma StateStart(s: seq<int>, p: seq<int>, start: nat, len: nat, c: nat, n: nat)
    requires ForwardState(s, p, start, len, c, n) || InverseState(s, p, start, len, c, n)
    requires n <= c && len > 0 && Offset(c, 2 * len) == N
    ensures start <= N && (start < N <==> n < c) && (n < c ==> start + 2 * len <= N)
  {
    BlockStart(n, c, 2 * len);
  }

  /** One pass of the middle loop. */
  method ForwardLayer(a: array<int>, zetas: seq<int>, i0: nat, len: nat, ghost t: nat, ghost c: nat) returns (i: nat)
    requires a.Length == N && Reduced(a[..], Q) && t >= 1 && AtLevel(t, c, len) && i0 == c
    requires IsTable(zetas)
    modifies a
    ensures Reduced(a[..], Q) && i == 2 * c && Blocks(N, c, Size(2, t)) && Blocks(N, 2 * c, Size(2, t - 1))
    ensures Rest(a[..], 2, t - 1, 2 * c, 2 * c, Zeta, Q) == Rest(old(a[..]), 2, t, c, c, Zeta, Q)
  {
    hide *;
    i := i0;
    var start := 0;
    ghost var p, n := a[..], 0;
    LevelFacts(t, c, len);
    ForwardStart(p, len, c);
    while start < N
      invariant 0 <= n <= c && i == c + n && Reduced(a[..], Q) && ForwardState(a[..], p, start, len, c, n)
      decreases N - start
    {
      ghost var s := a[..];
      StateStart(s, p, start, len, c, n);
      EntryOf(zetas, t, c, len, i);
      var zeta := zetas[i];
      i := i + 1;
      ForwardBlock(a, start, len, zeta);
      ForwardNext(p, s, a[..], start, len, c, n);
      start := start + 2 * len;
      n := n + 1;
    }
    ForwardEnd(p, a[..], start, t, c, len, n);
  }

  /** A level that is not the last one has at most 64 blocks. */
  lemma SameCount(t: nat, c: nat, len: nat)
    requires t >= 1 && AtLevel(t, c, len)
    ensures 2 * c <= 128
  {
    LevelFacts(t, c, len);
    LevelFacts(t - 1, 2 * c, len / 2);
  }

  method Copy(f: seq<int>) returns (a: array<int>)
    requires |f| == N
    ensures fresh(a) && a.Length == N && a[..] == f
  {
    a := new int[N];
    for i := 0 to N
      invariant forall j :: 0 <= j < i ==> a[j] == f[j]
    {
      a[i] := f[i];
    }
    assert a[..] == f;
  }

  function NttFun(f: seq<int>): (r: seq<int>)
    requires |f| == N
    ensures |r| == N
  {
    Ends();
    hide NttSpec.Ntt;
    NttSpec.Ntt(f, 2, 7, 1, Zeta, Q)
  }

  lemma WholeArray(f: seq<int>)
    requires |f| == N
    ensures Size(2, 7) == N && Blocks(N, 1, Size(2, 7))
    ensures Rest(f, 2, 7, 1, 1, Zeta, Q) == NttFun(f)
    ensures Done(f, 2, 7, 1, 1, InvZeta, Q) == NttSpec.INtt(f, 2, 7, 1, InvZeta, Q)
  {
    Ends();
    Whole(f, 2, 7, 1, Zeta, Q);
    Whole(f, 2, 7, 1, InvZeta, Q);
    hide NttSpec.Ntt, NttSpec.INtt;
  }

  /** The forward transform of a copy. */
  method Ntt(f: seq<int>) returns (r: seq<int>)
    requires |f| == N && Reduced(f, Q)
    ensures |r| == N && Reduced(r, Q) && r == NttFun(f)
  {
    hide *;
    var zetas, gammas := Tables();
    var a := Copy(f);
    var i: nat, len: nat := 1, 128;
    ghost var t: nat, c: nat := 7, 1;
    Ends();
    WholeArray(f);
    LevelFacts(t, c, len);
    while len >= 2
      invariant AtLevel(t, c, len) && i == c && Reduced(a[..], Q)
      invariant |a[..]| == N && Blocks(|a[..]|, c, Size(2, t)) && Rest(a[..], 2, t, c, c, Zeta, Q) == NttFun(f)
      decreases t
    {
      LevelFacts(t, c, len);
      i := ForwardLayer(a, zetas, i, len, t, c);
      t, c := t - 1, 2 * c;
      len := len / 2;
    }
    LevelFacts(t, c, len);
    Leaves(a[..], 2, c, c, Zeta, Q);
    r := a[..];
  }

  // ---------------------------------------------------------------- the inverse transform

  lemma InverseValues(x: int, y: int, z: int)
    requires 0 <= x < Q && 0 <= y < Q && 0 <= z < Q
    ensures FitsI32(x + y) && FitsI32(z * (y - x))
    ensures Reduce(x + y) == (x + y) % Q && Reduce(z * (y - x)) == ((Q - z) * (x - y)) % Q
  {
    var d := y - x;
    if d >= 0 { ProductFits(z, d); } else { ProductFits(z, -d); }
    assert z * (-d) == -(z * d);
    assert (Q - z) * (x - y) == z * d + (x - y) * Q;
    M.Multiple((Q - z) * (x - y), z * d, x - y, Q);
  }

  lemma MergeAt(l: seq<int>, r: seq<int>, y: int, i: nat)
    requires |l| == |r| && i < |l|
    ensures Merge(l, r, y, Q)[i] == (l[i] + r[i]) % Q && Merge(l, r, y, Q)[i + |l|] == (y * (l[i] - r[i])) % Q
  {
  }

  lemma InverseBlockAt(p: seq<int>, start: nat, len: nat, z: int, j: nat)
    requires |p| == N && Reduced(p, Q) && start + 2 * len <= N && 0 <= z < Q && start <= j < start + len
    ensures 0 <= p[j] < Q && 0 <= p[j + len] < Q && FitsI32(p[j] + p[j + len]) && FitsI32(z * (p[j + len] - p[j]))
    ensures var f := MergeBlock(p, start, len, Q - z, Q);
      f[j] == Reduce(p[j] + p[j + len]) && f[j + len] == Reduce(z * (p[j + len] - p[j]))
  {
    hide Merge, Reduce, Replace;
    var l, r := p[start..start + len], p[start + len..start + 2 * len];
    var m, i := Merge(l, r, Q - z, Q), j - start;
    InverseValues(p[j], p[j + len], z);
    MergeAt(l, r, Q - z, i);
    ReplaceAt(p, start, m, i);
    ReplaceAt(p, start, m, i + len);
    assert l[i] == p[j] && r[i] == p[j + len];
  }

  /** The inverse butterflies of one block. */
  method InverseBlock(a: array<int>, start: nat, len: nat, zeta: int)
    requires a.Length == N && Reduced(a[..], Q) && len > 0 && start + 2 * len <= N && 0 <= zeta < Q
    modifies a
    ensures Reduced(a[..], Q)
    ensures a[..] == MergeBlock(old(a[..]), start, len, Q - zeta, Q)
  {
    hide *;
    Ends();
    ghost var p := a[..];
    ghost var f := MergeBlock(p, start, len, Q - zeta, Q);
    MergeBlockFacts(p, start, len, Q - zeta, Q);
    PartialEnds(p, f, start, len);
    for j := start to start + len
      invariant a[..] == Partial(p, f, start, len, j)
    {
      InverseBlockAt(p, start, len, zeta, j);
      PartialNext(p, f, start, len, j);
      ghost var s := a[..];
      assert a[j] == s[j] && a[j + len] == s[j + len];
      var t := a[j];
      a[j] := Reduce(t + a[j + len]);
      a[j + len] := Reduce(zeta * (a[j + len] - t));
      assert a[..] == s[j := f[j]][j + len := f[j + len]];
    }
  }

  lemma MirrorAt(t: nat, c: nat, len: nat, i: nat)
    requires t >= 1 && AtLevel(t, c, len) && i < c
    ensures 2 * c - 1 - i < 128 && InvZeta(c + i) == Q - Zeta(2 * c - 1 - i)
  {
    hide *;
    SameCount(t, c, len);
    LevelCount(t, c, len);
    MirrorOfLevel(7 - t, i);
    InvZetaOf(c + i, 2 * c - 1 - i);
  }

  lemma LevelCount(t: nat, c: nat, len: nat)
    requires AtLevel(t, c, len)
    ensures t <= 7 && c == Exp2(7 - t)
  {
  }

  lemma InvZetaOf(k: nat, m: nat)
    requires Mirror(k) == m
    ensures InvZeta(k) == Q - Zeta(m)
  {
  }

  /** n of the c blocks of a level have been merged. */
  ghost predicate InverseState(s: seq<int>, p: seq<int>, start: nat, len: nat, c: nat, n: nat) {
    && |p| == N && start == Offset(n, 2 * len) <= N && Blocks(|p[..start]|, n, 2 * len)
    && s == MergeAll(p[..start], len, c, n, InvZeta, Q) + p[start..]
  }

  lemma InverseStart(p: seq<int>, len: nat, c: nat)
    requires |p| == N && len > 0 && Offset(c, 2 * len) == N
    ensures InverseState(p, p, 0, len, c, 0)
  {
    hide MergeAll;
    BlockStart(0, c, 2 * len);
    MergeAllNone(p[..0], len, c, InvZeta, Q);
    assert p[..0] + p[0..] == p;
  }

  lemma InverseNext(p: seq<int>, s: seq<int>, s': seq<int>, start: nat, len: nat, c: nat, n: nat)
    requires InverseState(s, p, start, len, c, n) && n < c && len > 0 && Offset(c, 2 * len) == N
    requires |s| == N && start + 2 * len <= N && s' == MergeBlock(s, start, len, InvZeta(c + n), Q)
    ensures InverseState(s', p, start + 2 * len, len, c, n + 1)
  {
    hide MergeAll, MergeBlock, InvZeta, Offset;
    BlockStart(n, c, 2 * len);
    MergeAllNext(p, s, s', start, len, c, n, InvZeta, Q);
  }

  lemma InverseEnd(p: seq<int>, s: seq<int>, start: nat, t: nat, c: nat, len: nat, n: nat)
    requires InverseState(s, p, start, len, c, n) && n <= c && start >= N && AtLevel(t, c, len)
    ensures n == c && Blocks(N, c, 2 * len) && s == MergeAll(p, len, c, c, InvZeta, Q)
  {
    hide MergeAll, InvZeta, Offset;
    LevelFacts(t, c, len);
    BlockStart(n, c, 2 * len);
    assert p[..start] == p && p[start..] == [];
    assert s == MergeAll(p, len, c, c, InvZeta, Q) + [];
  }

  /** One pass of the middle loop of the inverse transform. */
  method InverseLayer(a: array<int>, zetas: seq<int>, i0: nat, len: nat, ghost t: nat, ghost c: nat) returns (i: int)
    requires a.Length == N && Reduced(a[..], Q) && t >= 1 && AtLevel(t, c, len) && i0 == 2 * c - 1
    requires IsTable(zetas)
    modifies a
    ensures Reduced(a[..], Q) && i == c - 1 && Blocks(N, c, 2 * len)
    ensures a[..] == MergeAll(old(a[..]), len, c, c, InvZeta, Q)
  {
    hide *;
    i := i0;
    var start := 0;
    ghost var p, n := a[..], 0;
    LevelFacts(t, c, len);
    InverseStart(p, len, c);
    while start < N
      invariant 0 <= n <= c && i + n == 2 * c - 1 && Reduced(a[..], Q) && InverseState(a[..], p, start, len, c, n)
      decreases N - start
    {
      ghost var s := a[..];
      StateStart(s, p, start, len, c, n);
      MirrorAt(t, c, len, n);
      EntryOf(zetas, t, c, len, i);
      var zeta := zetas[i];
      i := i - 1;
      InverseBlock(a, start, len, zeta);
      InverseNext(p, s, a[..], start, len, c, n);
      start := start + 2 * len;
      n := n + 1;
    }
    InverseEnd(p, a[..], start, t, c, len, n);
  }

  const N_INVERSE: int := 3303

  function InvNttFun(f: seq<int>): (r: seq<int>)
    requires |f| == N
    ensures |r| == N
  {
    Ends();
    hide NttSpec.INtt;
    var u := NttSpec.INtt(f, 2, 7, 1, InvZeta, Q);
    seq(N, i requires 0 <= i < N => (u[i] * N_INVERSE) % Q)
  }

  lemma MergeOfDoneAt(p: seq<int>, t: nat, c: nat, len: nat)
    requires |p| == N && t >= 1 && AtLevel(t, c, len)
    ensures Blocks(N, c, 2 * len) && Blocks(N, 2 * c, Size(2, t - 1)) && Blocks(N, c, Size(2, t))
    ensures MergeAll(Done(p, 2, t - 1, 2 * c, 2 * c, InvZeta, Q), len, c, c, InvZeta, Q) == Done(p, 2, t, c, c, InvZeta, Q)
  {
    LevelFacts(t, c, len);
    LevelFacts(t - 1, 2 * c, len / 2);
    MergeOfDone(p, 2, t, c, c, InvZeta, Q);
  }

  /** The layers of the inverse transform; t levels are merged when len has come to 2^(t+1). */
  method InverseLayers(a: array<int>)
    requires a.Length == N && Reduced(a[..], Q)
    modifies a
    ensures Reduced(a[..], Q) && N == Size(2, 7)
    ensures a[..] == NttSpec.INtt(old(a[..]), 2, 7, 1, InvZeta, Q)
  {
    hide *;
    var zetas, gammas := Tables();
    var i: int, len: nat := 127, 2;
    ghost var t: nat, c: nat, p := 0, 128, a[..];
    Ends();
    LevelFacts(t, c, 1);
    Leaves(p, 2, c, c, InvZeta, Q);
    while len <= 128
      invariant t <= 7 && len == 2 * (len / 2) && AtLevel(t, c, len / 2) && i == c - 1 && Reduced(a[..], Q)
      invariant |p| == N && Blocks(|p|, c, Size(2, t)) && a[..] == Done(p, 2, t, c, c, InvZeta, Q)
      decreases 7 - t
    {
      LevelFacts(t, c, len / 2);
      i := InverseLayer(a, zetas, i, len, t + 1, c / 2);
      MergeOfDoneAt(p, t + 1, c / 2, len);
      t, c := t + 1, c / 2;
      len := 2 * len;
    }
    LevelFacts(t, c, len / 2);
    WholeArray(p);
  }

  method InvNtt(f: seq<int>) returns (r: seq<int>)
    requires |f| == N && Reduced(f, Q)
    ensures |r| == N && Reduced(r, Q) && r == InvNttFun(f)
  {
    hide NttSpec.INtt;
    var a := Copy(f);
    InverseLayers(a);
    ghost var u := a[..];
    for i := 0 to N
      invariant forall j :: 0 <= j < i ==> a[j] == (u[j] * N_INVERSE) % Q
      invariant forall j :: i <= j < N ==> a[j] == u[j]
    {
      ProductFits(a[i], N_INVERSE);
      a[i] := Reduce(a[i] * N_INVERSE);
    }
    r := a[..];
    assert r == InvNttFun(f);
    InvNttReduced(f);
  }

  // ---------------------------------------------------------------- products of pairs

  function PairsFun(a: seq<int>, b: seq<int>): (r: seq<int>)
    requires |a| == |b| == N
    ensures |r| == N
  {
    PairProduct(a, b, Gamma, Q)
  }

  lemma PairsReduced(a: seq<int>, b: seq<int>)
    requires |a| == |b| == N
    ensures Reduced(PairsFun(a, b), Q)
  {
    PairProductReduced(a, b, Gamma, Q);
  }

  lemma PairValues(a0: int, a1: int, b0: int, b1: int, g: int)
    requires 0 <= a0 < Q && 0 <= a1 < Q && 0 <= b0 < Q && 0 <= b1 < Q && 0 <= g < Q
    ensures FitsI32(a1 * b1) && FitsI32(a0 * b0 + Reduce(a1 * b1) * g) && FitsI32(a0 * b1 + a1 * b0)
    ensures Reduce(a0 * b0 + Reduce(a1 * b1) * g) == EvenOf(a0, a1, b0, b1, g, Q)
    ensures Reduce(a0 * b1 + a1 * b0) == OddOf(a0, a1, b0, b1, Q)
  {
    ProductFits(a1, b1);
    ProductFits(a0, b0);
    ProductFits(a0, b1);
    ProductFits(a1, b0);
    ProductFits(Reduce(a1 * b1), g);
  }

  /** The product in the transformed domain. */
  method NttMul(a: seq<int>, b: seq<int>) returns (c: seq<int>)
    requires |a| == |b| == N && Reduced(a, Q) && Reduced(b, Q)
    ensures |c| == N && Reduced(c, Q) && c == PairsFun(a, b)
  {
    hide EvenOf, OddOf, Gamma, Zeta, Reduce, PairProduct;
    var zetas, gammas := Tables();
    c := [];
    for i := 0 to 128
      invariant |c| == 2 * i && forall j :: 0 <= j < 2 * i ==> c[j] == PairsFun(a, b)[j]
    {
      var g := gammas[i];
      ZetaRange(i);
      PairValues(a[2 * i], a[2 * i + 1], b[2 * i], b[2 * i + 1], g);
      PairProductAt(a, b, i, Gamma, Q);
      c := c + [Reduce(a[2 * i] * b[2 * i] + Reduce(a[2 * i + 1] * b[2 * i + 1]) * g),
                Reduce(a[2 * i] * b[2 * i + 1] + a[2 * i + 1] * b[2 * i])];
    }
    assert c == PairsFun(a, b);
    PairsReduced(a, b);
  }

  // ---------------------------------------------------------------- what the transforms mean

  lemma InvNttReduced(f: seq<int>)
    requires |f| == N
    ensures Reduced(InvNttFun(f), Q)
  {
    hide NttSpec.INtt;
    Ends();
    var r, u := InvNttFun(f), NttSpec.INtt(f, 2, 7, 1, InvZeta, Q);
    forall i | 0 <= i < |r|
      ensures 0 <= r[i] < Q
    {
      assert r[i] == (u[i] * N_INVERSE) % Q;
    }
  }

  lemma NttFunReduced(f: seq<int>)
    requires |f| == N && Reduced(f, Q)
    ensures Reduced(NttFun(f), Q)
  {
    hide NttSpec.Ntt;
    Ends();
    NttReduced(f, 2, 7, 1, Zeta, Q);
  }

  /** x * 128 * 128^-1 is x. */
  lemma Unscale(d: int, x: int)
    requires d % Q == (128 * x) % Q && 0 <= x < Q
    ensures (d * N_INVERSE) % Q == x
  {
    M.Scale(N_INVERSE, d, 128 * x, Q);
    assert N_INVERSE * (128 * x) == x + (127 * x) * Q;
    M.Multiple(N_INVERSE * (128 * x), x, 127 * x, Q);
    M.Small(x, Q);
  }

  /** The inverse transform undoes the forward transform. */
  lemma InverseOfForward(f: seq<int>)
    requires |f| == N && Reduced(f, Q)
    ensures InvNttFun(NttFun(f)) == f
  {
    hide NttSpec.Ntt, NttSpec.INtt;
    Ends();
    Exp2Values();
    ZetaInverses();
    NttTheory.INttOfNtt(f, 2, 7, 1, Zeta, InvZeta, 128, Q);
    var u := NttSpec.INtt(NttFun(f), 2, 7, 1, InvZeta, Q);
    forall i | 0 <= i < N
      ensures InvNttFun(NttFun(f))[i] == f[i]
    {
      Unscale(u[i], f[i]);
    }
  }

  /** The forward transform undoes the inverse transform. */
  lemma ForwardOfInverse(f: seq<int>)
    requires |f| == N && Reduced(f, Q)
    ensures NttFun(InvNttFun(f)) == f
  {
    hide NttSpec.Ntt, NttSpec.INtt;
    Ends();
    Exp2Values();
    ZetaInverses();
    var u, w := NttSpec.INtt(f, 2, 7, 1, InvZeta, Q), InvNttFun(f);
    NttTheory.NttOfINtt(f, 2, 7, 1, Zeta, InvZeta, 128, Q);
    forall i | 0 <= i < N
      ensures w[i] % Q == (N_INVERSE * u[i]) % Q
    {
      M.Reduce(u[i] * N_INVERSE, Q);
    }
    NttTheory.NttMultiple(w, N_INVERSE, u, 2, 7, 1, Zeta, Q);
    NttReduced(w, 2, 7, 1, Zeta, Q);
    var g, h := NttFun(w), NttSpec.Ntt(u, 2, 7, 1, Zeta, Q);
    forall i | 0 <= i < N
      ensures g[i] == f[i]
    {
      Unscale(h[i], f[i]);
      M.Small(g[i], Q);
    }
  }

  /** The transform of the schoolbook negacyclic product is the product of pairs. */
  lemma NttOfProduct(a: seq<int>, b: seq<int>)
    requires |a| == |b| == N
    ensures NttFun(NttTheory.Product(a, b, Q)) == PairsFun(NttFun(a), NttFun(b))
  {
    hide NttSpec.Ntt, PairProduct;
    Ends();
    Exp2Values();
    ZetaSquareRoots();
    Gammas();
    NttOfPairProduct(a, b, 7, Zeta, Gamma, Q);
  }

  /**
   Main result: going through the incomplete transform computes the schoolbook
   negacyclic product in Z_q[X]/(X^256 + 1).
   */
  lemma NttMultiplies(a: seq<int>, b: seq<int>)
    requires |a| == |b| == N && Reduced(a, Q) && Reduced(b, Q)
    ensures InvNttFun(PairsFun(NttFun(a), NttFun(b))) == NttTheory.Product(a, b, Q)
  {
    hide NttFun, InvNttFun, PairsFun;
    NttOfProduct(a, b);
    NttTheory.ProductReduced(a, b, Q);
    InverseOfForward(NttTheory.Product(a, b, Q));
  }
}
