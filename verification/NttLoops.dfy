/**
 What the in-place transforms of ML-DSA and ML-KEM have in common: arrays of 256
 coefficients, the bit-reversed numbering of the twiddle factors, and the state of the
 three nested loops.
 */
module NttLoops {
  import opened NttSpec
  import opened NttBlocks
  import M = Modular

  const N: nat := 256

  // ---------------------------------------------------------------- the numbering of the nodes

  /** i with its low `bits` bits reversed. */
  function BitRev(i: nat, bits: nat): nat {
    if bits == 0 then 0 else (if i % 2 == 1 then Exp2(bits - 1) else 0) + BitRev(i / 2, bits - 1)
  }

  /** The inverse loop walks the table backwards: node k of a level uses the mirrored entry. */
  function Mirror(k: nat): nat
    decreases k
  {
    if k <= 1 then 1 else if k % 2 == 0 then 2 * Mirror(k / 2) + 1 else 2 * Mirror(k / 2)
  }

  /** In the countdown of `inv_ntt`: the block j of a level of c blocks uses entry 2c - 1 - j. */
  lemma {:induction false} MirrorOfLevel(m: nat, j: nat)
    requires j < Exp2(m)
    ensures Mirror(Exp2(m) + j) == 2 * Exp2(m) - 1 - j
  {
    if m > 0 {
      MirrorOfLevel(m - 1, j / 2);
      assert (Exp2(m) + j) / 2 == Exp2(m - 1) + j / 2 && (Exp2(m) + j) % 2 == j % 2;
    }
  }

  lemma {:induction false} BitRevTopClear(k: nat, bits: nat)
    requires k < Exp2(bits)
    ensures BitRev(k, bits + 1) == 2 * BitRev(k, bits)
  {
    if bits > 0 {
      BitRevTopClear(k / 2, bits - 1);
    }
  }

  lemma {:induction false} BitRevZero(bits: nat)
    ensures BitRev(0, bits) == 0
  {
    if bits > 0 {
      BitRevZero(bits - 1);
    }
  }

  lemma Exp2Values()
    ensures Exp2(0) == 1 && Exp2(1) == 2 && Exp2(2) == 4 && Exp2(3) == 8 && Exp2(4) == 16
    ensures Exp2(5) == 32 && Exp2(6) == 64 && Exp2(7) == 128 && Exp2(8) == 256
  {
    assert Exp2(2) == 4;
    assert Exp2(4) == 16;
    assert Exp2(6) == 64;
  }

  function Level(k: nat): (m: nat)
    requires k >= 1
    ensures Exp2(m) <= k < 2 * Exp2(m)
  {
    if k == 1 then 0 else Level(k / 2) + 1
  }

  lemma {:induction false} LevelBound(k: nat)
    requires 1 <= k < 256
    ensures Level(k) <= 7
  {
    Exp2Values();
    if Level(k) >= 8 {
      Exp2Grows(8, Level(k));
    }
  }

  lemma {:induction false} Exp2Grows(a: nat, b: nat)
    requires a <= b
    ensures Exp2(a) <= Exp2(b)
    decreases b
  {
    if a < b {
      Exp2Grows(a, b - 1);
    }
  }

  // ---------------------------------------------------------------- blocks of an array

  /** p with the entries from start on replaced by the block m. */
  function Replace(p: seq<int>, start: nat, m: seq<int>): (f: seq<int>)
    requires start + |m| <= |p|
    ensures |f| == |p|
  {
    p[..start] + m + p[start + |m|..]
  }

  lemma ReplaceFacts(p: seq<int>, start: nat, m: seq<int>, q: nat)
    requires start + |m| <= |p|
    ensures forall i :: 0 <= i < |p| && !(start <= i < start + |m|) ==> Replace(p, start, m)[i] == p[i]
    ensures Reduced(p, q) && Reduced(m, q) ==> Reduced(Replace(p, start, m), q)
  {
  }

  lemma ReplaceAt(p: seq<int>, start: nat, m: seq<int>, i: nat)
    requires start + |m| <= |p| && i < |m|
    ensures Replace(p, start, m)[start + i] == m[i]
  {
  }

  /** The state of the innermost loop at j: butterflies start..j are done. */
  function Partial(p: seq<int>, f: seq<int>, start: nat, len: nat, j: nat): (r: seq<int>)
    requires |p| == |f| == N
    ensures |r| == N
  {
    seq(N, i requires 0 <= i < N => if start <= i < j || start + len <= i < j + len then f[i] else p[i])
  }

  lemma PartialEnds(p: seq<int>, f: seq<int>, start: nat, len: nat)
    requires |p| == |f| == N && start + 2 * len <= N
    requires forall i :: 0 <= i < N && !(start <= i < start + 2 * len) ==> f[i] == p[i]
    ensures Partial(p, f, start, len, start) == p && Partial(p, f, start, len, start + len) == f
  {
  }

  lemma PartialNext(p: seq<int>, f: seq<int>, start: nat, len: nat, j: nat)
    requires |p| == |f| == N && start <= j < start + len && start + 2 * len <= N
    ensures var s := Partial(p, f, start, len, j);
      s[j] == p[j] && s[j + len] == p[j + len] && Partial(p, f, start, len, j + 1) == s[j := f[j]][j + len := f[j + len]]
  {
  }

  /** Position of block i in a level. */
  function Offset(i: nat, size: nat): nat {
    i * size
  }

  lemma BlockStart(i: nat, c: nat, size: nat)
    requires i <= c && size > 0 && Offset(c, size) == N
    ensures Offset(i, size) <= N && (Offset(i, size) < N <==> i < c) && (i == 0 ==> Offset(i, size) == 0)
    ensures i < c ==> Offset(i + 1, size) == Offset(i, size) + size <= N
    ensures Blocks(Offset(i, size), i, size)
  {
    BlocksProduct(i * size, i, size);
    assert (c - i) * size == N - i * size;
    if i < c {
      assert (c - i - 1) * size >= 0;
    }
  }

  lemma CountBound(c: nat, size: nat)
    requires size >= 2 && Offset(c, size) == N
    ensures 2 * c <= N
  {
    assert c * size == 2 * c + c * (size - 2);
    assert c * (size - 2) >= 0;
  }

  lemma SplitAllNext(p: seq<int>, s: seq<int>, s': seq<int>, start: nat, len: nat, c: nat, i: nat, zs: Twiddles, q: nat)
    requires q > 0 && |p| == N && start + 2 * len <= N && Blocks(start, i, 2 * len)
    requires s == SplitAll(p[..start], len, c, i, zs, q) + p[start..]
    requires s' == Replace(s, start, Split(s[start..start + 2 * len], zs(c + i), q))
    ensures Blocks(start + 2 * len, i + 1, 2 * len)
    ensures s' == SplitAll(p[..start + 2 * len], len, c, i + 1, zs, q) + p[start + 2 * len..]
  {
    hide SplitAll, Split;
    var b := p[start..start + 2 * len];
    assert s[start..start + 2 * len] == b;
    SplitAllLast(p[..start], b, len, c, i, zs, q);
    assert p[..start] + b == p[..start + 2 * len];
    assert s[..start] == SplitAll(p[..start], len, c, i, zs, q);
    assert s[start + 2 * len..] == p[start + 2 * len..];
  }

  lemma SplitAllNone(p: seq<int>, h: nat, k: nat, zs: Twiddles, q: nat)
    requires q > 0 && |p| == 0
    ensures Blocks(|p|, 0, 2 * h) && SplitAll(p, h, k, 0, zs, q) == []
  {
  }

  lemma MergeAllNext(p: seq<int>, s: seq<int>, s': seq<int>, start: nat, len: nat, c: nat, i: nat, ys: Twiddles, q: nat)
    requires q > 0 && |p| == N && start + 2 * len <= N && Blocks(start, i, 2 * len)
    requires s == MergeAll(p[..start], len, c, i, ys, q) + p[start..]
    requires s' == MergeBlock(s, start, len, ys(c + i), q)
    ensures Blocks(start + 2 * len, i + 1, 2 * len)
    ensures s' == MergeAll(p[..start + 2 * len], len, c, i + 1, ys, q) + p[start + 2 * len..]
  {
    hide MergeAll, Merge;
    var l, r := p[start..start + len], p[start + len..start + 2 * len];
    assert s[start..start + len] == l && s[start + len..start + 2 * len] == r;
    MergeAllLast(p[..start], l, r, len, c, i, ys, q);
    assert p[..start] + (l + r) == p[..start + 2 * len];
    assert s[..start] == MergeAll(p[..start], len, c, i, ys, q);
    assert s[start + 2 * len..] == p[start + 2 * len..];
  }

  lemma MergeAllNone(p: seq<int>, h: nat, k: nat, ys: Twiddles, q: nat)
    requires q > 0 && |p| == 0
    ensures Blocks(|p|, 0, 2 * h) && MergeAll(p, h, k, 0, ys, q) == []
  {
  }

  lemma SplitReduced(b: seq<int>, zeta: int, q: nat)
    requires q > 0 && |b| % 2 == 0
    ensures Reduced(Split(b, zeta, q), q)
  {
  }

  /** p with the inverse butterflies of the block at start done. */
  function MergeBlock(p: seq<int>, start: nat, len: nat, y: int, q: nat): (f: seq<int>)
    requires q > 0 && start + 2 * len <= |p|
    ensures |f| == |p|
  {
    Replace(p, start, Merge(p[start..start + len], p[start + len..start + 2 * len], y, q))
  }

  lemma MergeBlockFacts(p: seq<int>, start: nat, len: nat, y: int, q: nat)
    requires q > 0 && |p| == N && start + 2 * len <= |p|
    ensures forall i :: 0 <= i < |p| && !(start <= i < start + 2 * len) ==> MergeBlock(p, start, len, y, q)[i] == p[i]
    ensures Reduced(p, q) ==> Reduced(MergeBlock(p, start, len, y, q), q)
  {
    ReplaceFacts(p, start, Merge(p[start..start + len], p[start + len..start + 2 * len], y, q), q);
  }
}
