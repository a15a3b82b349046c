/**
 The breadth-first loops of `ntt` and `inv_ntt` against the depth-first definition of the
 transform: an array in the middle of a transform is a row of equal blocks, and one
 layer of butterflies turns c blocks of 2^t entries into 2c blocks of 2^(t-1).
 */
module NttBlocks {
  import opened NttSpec

  /** n entries are exactly c blocks of the given size. */
  predicate Blocks(n: int, c: nat, size: nat)
    decreases c
  {
    if c == 0 then n == 0 else n >= size && Blocks(n - size, c - 1, size)
  }

  lemma {:induction false} BlocksProduct(n: int, c: nat, size: nat)
    ensures Blocks(n, c, size) <==> n == c * size
    decreases c
  {
    if c == 0 {
    } else {
      BlocksProduct(n - size, c - 1, size);
      assert c * size == (c - 1) * size + size;
      assert (c - 1) * size >= 0;
    }
  }

  lemma BlocksLast(n: int, c: nat, size: nat)
    requires c > 0 && Blocks(n, c, size)
    ensures n >= size && Blocks(n - size, c - 1, size)
  {
  }

  lemma {:induction false} BlocksHalved(n: int, c: nat, h: nat)
    requires Blocks(n, c, 2 * h)
    ensures Blocks(n, 2 * c, h)
    decreases c
  {
    if c > 0 {
      BlocksHalved(n - 2 * h, c - 1, h);
    }
  }

  /** c blocks, each transformed at its node k, k+1, ... */
  function Rest(a: seq<int>, b: nat, t: nat, k: nat, c: nat, zs: Twiddles, q: nat): (r: seq<int>)
    requires q > 0 && Blocks(|a|, c, Size(b, t))
    ensures |r| == |a|
    decreases c
  {
    if c == 0 then []
    else
      var e := |a| - Size(b, t);
      Rest(a[..e], b, t, k, c - 1, zs, q) + Ntt(a[e..], b, t, k + c - 1, zs, q)
  }

  /** One forward layer over c blocks of the given even size. */
  function SplitAll(a: seq<int>, h: nat, k: nat, c: nat, zs: Twiddles, q: nat): (r: seq<int>)
    requires q > 0 && Blocks(|a|, c, 2 * h)
    ensures |r| == |a|
    decreases c
  {
    if c == 0 then []
    else
      var e := |a| - 2 * h;
      SplitAll(a[..e], h, k, c - 1, zs, q) + Split(a[e..], zs(k + c - 1), q)
  }

  /** c blocks of the unscaled inverse transform of the original array. */
  function Done(a: seq<int>, b: nat, t: nat, k: nat, c: nat, ys: Twiddles, q: nat): (r: seq<int>)
    requires q > 0 && Blocks(|a|, c, Size(b, t))
    ensures |r| == |a|
    decreases c
  {
    if c == 0 then []
    else
      var e := |a| - Size(b, t);
      Done(a[..e], b, t, k, c - 1, ys, q) + INtt(a[e..], b, t, k + c - 1, ys, q)
  }

  /** One inverse layer over c blocks of 2h entries. */
  function MergeAll(a: seq<int>, h: nat, k: nat, c: nat, ys: Twiddles, q: nat): (r: seq<int>)
    requires q > 0 && Blocks(|a|, c, 2 * h)
    ensures |r| == |a|
    decreases c
  {
    if c == 0 then []
    else
      var e := |a| - 2 * h;
      MergeAll(a[..e], h, k, c - 1, ys, q) + Merge(a[e..e + h], a[e + h..], ys(k + c - 1), q)
  }

  lemma NoBlocks(a: seq<int>, b: nat, t: nat, k: nat, zs: Twiddles, q: nat)
    requires q > 0 && t > 0 && |a| == 0
    ensures Blocks(|a|, 0, Size(b, t)) && Blocks(|a|, 0, Size(b, t - 1)) && Blocks(|a|, 0, 2 * Size(b, t - 1))
    ensures Rest(a, b, t, k, 0, zs, q) == [] == SplitAll(a, Size(b, t - 1), k, 0, zs, q)
    ensures Rest(a, b, t - 1, 2 * k, 0, zs, q) == [] == Done(a, b, t - 1, 2 * k, 0, zs, q)
    ensures Done(a, b, t, k, 0, zs, q) == [] == MergeAll(a, Size(b, t - 1), k, 0, zs, q)
  {
  }

  /** A forward layer leaves the finished transform unchanged. */
  lemma {:induction false} SplitKeepsRest(a: seq<int>, b: nat, t: nat, k: nat, c: nat, zs: Twiddles, q: nat)
    requires q > 0 && t > 0 && Blocks(|a|, c, Size(b, t))
    ensures Blocks(|a|, 2 * c, Size(b, t - 1))
    ensures Rest(SplitAll(a, Size(b, t - 1), k, c, zs, q), b, t - 1, 2 * k, 2 * c, zs, q)
         == Rest(a, b, t, k, c, zs, q)
    decreases c
  {
    hide Ntt, Size, Split;
    HalfSize(b, t);
    BlocksHalved(|a|, c, Size(b, t - 1));
    if c == 0 {
      NoBlocks(a, b, t, k, zs, q);
    } else {
      hide *;
      BlocksLast(|a|, c, Size(b, t));
      var e := |a| - Size(b, t);
      SplitKeepsRest(a[..e], b, t, k, c - 1, zs, q);
      assert a == a[..e] + a[e..];
      SplitStep(a[..e], a[e..], b, t, k, c - 1, zs, q);
    }
  }

  lemma SplitStep(p: seq<int>, l: seq<int>, b: nat, t: nat, k: nat, c: nat, zs: Twiddles, q: nat)
    requires q > 0 && t > 0 && Blocks(|p|, c, Size(b, t)) && |l| == Size(b, t)
    requires Size(b, t) == 2 * Size(b, t - 1)
    requires Blocks(|p|, 2 * c, Size(b, t - 1)) && Blocks(|p + l|, c + 1, Size(b, t)) && Blocks(|p + l|, 2 * (c + 1), Size(b, t - 1))
    requires Rest(SplitAll(p, Size(b, t - 1), k, c, zs, q), b, t - 1, 2 * k, 2 * c, zs, q) == Rest(p, b, t, k, c, zs, q)
    ensures Rest(SplitAll(p + l, Size(b, t - 1), k, c + 1, zs, q), b, t - 1, 2 * k, 2 * (c + 1), zs, q)
         == Rest(p + l, b, t, k, c + 1, zs, q)
  {
    hide *;
    var h, z := Size(b, t - 1), zs(k + c);
    SplitAllLast(p, l, h, k, c, zs, q);
    RestGrows(p, l, b, t, k, c, zs, q);
    NttUnfold(l, b, t, k + c, zs, q);
    TwoMore(SplitAll(p, h, k, c, zs, q), Lo(l, z, q), Hi(l, z, q), b, t - 1, 2 * k, 2 * c, zs, q);
  }

  lemma RestGrows(p: seq<int>, x: seq<int>, b: nat, t: nat, k: nat, c: nat, zs: Twiddles, q: nat)
    requires q > 0 && |x| == Size(b, t) && Blocks(|p|, c, Size(b, t))
    ensures Blocks(|p + x|, c + 1, Size(b, t))
    ensures Rest(p + x, b, t, k, c + 1, zs, q) == Rest(p, b, t, k, c, zs, q) + Ntt(x, b, t, k + c, zs, q)
  {
    var s := p + x;
    assert s[..|p|] == p && s[|p|..] == x;
  }

  lemma DoneGrows(p: seq<int>, x: seq<int>, b: nat, t: nat, k: nat, c: nat, ys: Twiddles, q: nat)
    requires q > 0 && |x| == Size(b, t) && Blocks(|p|, c, Size(b, t))
    ensures Blocks(|p + x|, c + 1, Size(b, t))
    ensures Done(p + x, b, t, k, c + 1, ys, q) == Done(p, b, t, k, c, ys, q) + INtt(x, b, t, k + c, ys, q)
  {
    var s := p + x;
    assert s[..|p|] == p && s[|p|..] == x;
  }

  lemma TwoMore(p: seq<int>, x: seq<int>, y: seq<int>, b: nat, t: nat, k: nat, c: nat, zs: Twiddles, q: nat)
    requires q > 0 && |x| == |y| == Size(b, t) && Blocks(|p|, c, Size(b, t))
    ensures Blocks(|p + (x + y)|, c + 2, Size(b, t))
    ensures Rest(p + (x + y), b, t, k, c + 2, zs, q)
         == Rest(p, b, t, k, c, zs, q) + (Ntt(x, b, t, k + c, zs, q) + Ntt(y, b, t, k + c + 1, zs, q))
  {
    hide *;
    RestGrows(p, x, b, t, k, c, zs, q);
    RestGrows(p + x, y, b, t, k, c + 1, zs, q);
    assert p + (x + y) == (p + x) + y;
  }

  lemma TwoMoreDone(p: seq<int>, x: seq<int>, y: seq<int>, b: nat, t: nat, k: nat, c: nat, ys: Twiddles, q: nat)
    requires q > 0 && |x| == |y| == Size(b, t) && Blocks(|p|, c, Size(b, t))
    ensures Blocks(|p + (x + y)|, c + 2, Size(b, t))
    ensures Done(p + (x + y), b, t, k, c + 2, ys, q)
         == Done(p, b, t, k, c, ys, q) + (INtt(x, b, t, k + c, ys, q) + INtt(y, b, t, k + c + 1, ys, q))
  {
    hide *;
    DoneGrows(p, x, b, t, k, c, ys, q);
    DoneGrows(p + x, y, b, t, k, c + 1, ys, q);
    assert p + (x + y) == (p + x) + y;
  }

  /** An inverse layer merges finished blocks in pairs. */
  lemma {:induction false} MergeOfDone(a: seq<int>, b: nat, t: nat, k: nat, c: nat, ys: Twiddles, q: nat)
    requires q > 0 && t > 0 && Blocks(|a|, c, Size(b, t))
    ensures Blocks(|a|, 2 * c, Size(b, t - 1))
    ensures MergeAll(Done(a, b, t - 1, 2 * k, 2 * c, ys, q), Size(b, t - 1), k, c, ys, q)
         == Done(a, b, t, k, c, ys, q)
    decreases c
  {
    hide INtt, Size, Merge;
    HalfSize(b, t);
    BlocksHalved(|a|, c, Size(b, t - 1));
    if c == 0 {
      NoBlocks(a, b, t, k, ys, q);
    } else {
      hide *;
      BlocksLast(|a|, c, Size(b, t));
      var e := |a| - Size(b, t);
      MergeOfDone(a[..e], b, t, k, c - 1, ys, q);
      assert a == a[..e] + a[e..];
      MergeStep(a[..e], a[e..], b, t, k, c - 1, ys, q);
    }
  }

  lemma MergeStep(p: seq<int>, l: seq<int>, b: nat, t: nat, k: nat, c: nat, ys: Twiddles, q: nat)
    requires q > 0 && t > 0 && Blocks(|p|, c, Size(b, t)) && |l| == Size(b, t)
    requires Size(b, t) == 2 * Size(b, t - 1)
    requires Blocks(|p|, 2 * c, Size(b, t - 1)) && Blocks(|p + l|, c + 1, Size(b, t)) && Blocks(|p + l|, 2 * (c + 1), Size(b, t - 1))
    requires MergeAll(Done(p, b, t - 1, 2 * k, 2 * c, ys, q), Size(b, t - 1), k, c, ys, q) == Done(p, b, t, k, c, ys, q)
    ensures MergeAll(Done(p + l, b, t - 1, 2 * k, 2 * (c + 1), ys, q), Size(b, t - 1), k, c + 1, ys, q)
         == Done(p + l, b, t, k, c + 1, ys, q)
  {
    hide *;
    var h := Size(b, t - 1);
    var x, y := l[..h], l[h..];
    assert l == x + y;
    DoneGrows(p, l, b, t, k, c, ys, q);
    INttUnfold(l, b, t, k + c, ys, q);
    TwoMoreDone(p, x, y, b, t - 1, 2 * k, 2 * c, ys, q);
    MergeAllLast(Done(p, b, t - 1, 2 * k, 2 * c, ys, q), INtt(x, b, t - 1, 2 * k + 2 * c, ys, q),
                 INtt(y, b, t - 1, 2 * k + 2 * c + 1, ys, q), h, k, c, ys, q);
  }

  lemma MergeAllLast(p: seq<int>, l: seq<int>, r: seq<int>, h: nat, k: nat, c: nat, ys: Twiddles, q: nat)
    requires q > 0 && Blocks(|p|, c, 2 * h) && |l| == |r| == h
    ensures Blocks(|p + (l + r)|, c + 1, 2 * h)
    ensures MergeAll(p + (l + r), h, k, c + 1, ys, q) == MergeAll(p, h, k, c, ys, q) + Merge(l, r, ys(k + c), q)
  {
    hide Merge;
    var s := p + (l + r);
    assert s[..|p|] == p && s[|p|..|p| + h] == l && s[|p| + h..] == r;
  }

  lemma SplitAllLast(p: seq<int>, l: seq<int>, h: nat, k: nat, c: nat, zs: Twiddles, q: nat)
    requires q > 0 && Blocks(|p|, c, 2 * h) && |l| == 2 * h
    ensures Blocks(|p + l|, c + 1, 2 * h)
    ensures SplitAll(p + l, h, k, c + 1, zs, q) == SplitAll(p, h, k, c, zs, q) + Split(l, zs(k + c), q)
  {
    var s := p + l;
    assert s[..|p|] == p && s[|p|..] == l;
  }

  /** Before any butterfly every block of b is finished, whatever the factors. */
  lemma {:induction false} Leaves(a: seq<int>, b: nat, k: nat, c: nat, zs: Twiddles, q: nat)
    requires q > 0 && Blocks(|a|, c, Size(b, 0))
    ensures Rest(a, b, 0, k, c, zs, q) == a && Done(a, b, 0, k, c, zs, q) == a
    decreases c
  {
    hide Ntt, INtt, Size;
    if c == 0 {
    } else {
      var e := |a| - Size(b, 0);
      Leaves(a[..e], b, k, c - 1, zs, q);
      LeafBlock(a[e..], b, k + c - 1, zs, q);
      assert a == a[..e] + a[e..];
    }
  }

  lemma LeafBlock(a: seq<int>, b: nat, k: nat, zs: Twiddles, q: nat)
    requires q > 0 && |a| == Size(b, 0)
    ensures Ntt(a, b, 0, k, zs, q) == a && INtt(a, b, 0, k, zs, q) == a
  {
  }

  /** One block alone. */
  lemma Whole(a: seq<int>, b: nat, t: nat, k: nat, zs: Twiddles, q: nat)
    requires q > 0 && |a| == Size(b, t)
    ensures Blocks(|a|, 1, Size(b, t))
    ensures Rest(a, b, t, k, 1, zs, q) == Ntt(a, b, t, k, zs, q)
    ensures Done(a, b, t, k, 1, zs, q) == INtt(a, b, t, k, zs, q)
  {
    hide Ntt, INtt, Size;
    assert Blocks(|a| - Size(b, t), 0, Size(b, t));
    assert a[0..] == a && a[..0] == [];
  }
}
