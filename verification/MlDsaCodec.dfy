/**
 The encodings of ML-DSA-65 (section 7.2 of FIPS 204): polynomials through the bit
 packers, and signatures c || z || hint.
 */
module MlDsaCodec {
  import opened Wrappers
  import opened NttSpec
  import opened NttLoops
  import opened MlDsaNtt
  import opened MlDsaRounding
  import opened BitPacking
  import opened Digits
  import M = Modular

  const K: nat := 6
  const L: nat := 5
  const OMEGA: nat := 55
  const GAMMA1: nat := 0x8_0000
  const C_TILDE_LEN: nat := 48
  const Z_STRIDE: nat := 640
  const SIGNATURE_LEN: nat := 3309

  // ---------------------------------------------------------------- polynomials

  /** `top` minus the centred coefficients: how the eta, t0 and z encodings make values non-negative. */
  function Below(p: seq<int>, top: int): (v: seq<int>)
    ensures |v| == |p|
  {
    seq(|p|, i requires 0 <= i < |p| => top - Center(p[i]))
  }

  function FromBelow(v: seq<int>, top: int): (p: seq<int>)
    ensures |p| == |v| && Reduced(p, Q)
  {
    seq(|v|, i requires 0 <= i < |v| => (top - v[i]) % Q)
  }

  /** The coefficients that fit: centred values in (top - 2^bits, top]. */
  ghost predicate InRange(p: seq<int>, top: int, bits: nat) {
    forall i :: 0 <= i < |p| ==> 0 <= p[i] < Q && top - Pow(2, bits) < Center(p[i]) <= top
  }

  function PackPoly(p: seq<int>, top: int, bits: nat): seq<int> {
    Packed(Below(p, top), bits)
  }

  function UnpackPoly(data: seq<int>, top: int, bits: nat): (p: seq<int>)
    ensures |p| == N && Reduced(p, Q)
  {
    FromBelow(Unpacked(data, bits, N), top)
  }

  /** Encoding a polynomial and decoding it gives it back, for every polynomial in range. */
  lemma UnpackOfPackPoly(p: seq<int>, top: int, bits: nat)
    requires |p| == N && InRange(p, top, bits) && (N * bits) % 8 == 0
    ensures UnpackPoly(PackPoly(p, top, bits), top, bits) == p
  {
    hide Pow, Packed, Unpacked;
    var v := Below(p, top);
    assert IsDigits(v, Pow(2, bits)) by {
      forall i | 0 <= i < |v|
        ensures 0 <= v[i] < Pow(2, bits)
      {
        assert top - Pow(2, bits) < Center(p[i]) <= top;
      }
    }
    UnpackOfPack(v, bits);
    forall i | 0 <= i < N
      ensures FromBelow(v, top)[i] == p[i]
    {
      assert top - v[i] == Center(p[i]);
      CenterCongruent(p[i]);
    }
  }

  lemma CenterCongruent(x: int)
    requires 0 <= x < Q
    ensures Center(x) % Q == x
  {
  }

  const HALF: int := (Q - 1) / 2

  lemma CenterOf(x: int)
    requires -HALF <= x <= HALF
    ensures Center(x % Q) == x
  {
  }

  /** Decoding a polynomial and encoding it gives the bytes back, when the whole range is centred. */
  lemma PackOfUnpackPoly(data: seq<int>, top: int, bits: nat)
    requires IsDigits(data, 256) && N * bits == 8 * |data| && 0 <= top <= HALF && Pow(2, bits) - top - 1 <= HALF
    ensures PackPoly(UnpackPoly(data, top, bits), top, bits) == data
    ensures InRange(UnpackPoly(data, top, bits), top, bits)
  {
    hide Pow, Packed, Unpacked;
    var v := Unpacked(data, bits, N);
    var p := FromBelow(v, top);
    forall i | 0 <= i < N
      ensures Center(p[i]) == top - v[i]
    {
      assert 0 <= v[i] < Pow(2, bits);
      CenterOf(top - v[i]);
    }
    assert Below(p, top) == v;
    PackOfUnpack(data, bits, N);
  }

  /** The encoders of s1, s2 (top 4, 4 bits), t0 (top 2^12, 13 bits) and z (top gamma1, 20 bits). */
  method EncodePoly(p: seq<int>, top: int, bits: nat) returns (out: seq<int>)
    requires |p| == N && 1 <= bits <= 32 && InRange(p, top, bits)
    ensures out == PackPoly(p, top, bits)
  {
    hide Pow;
    var vals := Below(p, top);
    out := PackBits(vals, bits);
  }

  method DecodePoly(data: seq<int>, top: int, bits: nat) returns (p: seq<int>)
    requires IsDigits(data, 256) && 1 <= bits <= 32 && N * bits == 8 * |data|
    ensures p == UnpackPoly(data, top, bits) && |p| == N && Reduced(p, Q)
  {
    hide Pow;
    var vals := UnpackBits(data, bits, N);
    p := FromBelow(vals, top);
  }

  // ---------------------------------------------------------------- hints

  /** The positions of the non-zero coefficients, in increasing order. */
  function Ones(p: seq<int>): seq<int> {
    if |p| == 0 then [] else Ones(p[..|p| - 1]) + if p[|p| - 1] != 0 then [|p| - 1] else []
  }

  predicate Increasing(s: seq<int>) {
    forall j :: 0 < j < |s| ==> s[j - 1] < s[j]
  }

  function Indicator(s: seq<int>): (p: seq<int>)
    ensures |p| == N
  {
    seq(N, j requires 0 <= j < N => if j in s then 1 else 0)
  }

  predicate IsHintPoly(p: seq<int>) {
    |p| == N && forall j :: 0 <= j < N ==> p[j] == 0 || p[j] == 1
  }

  /** o lists the positions of the non-zero coefficients. */
  ghost predicate Positions(o: seq<int>, p: seq<int>) {
    Increasing(o) && forall j :: j in o <==> 0 <= j < |p| && p[j] != 0
  }

  lemma {:induction false} OnesAreOnes(p: seq<int>)
    ensures Positions(Ones(p), p)
  {
    if p != [] {
      var n := |p| - 1;
      OnesAreOnes(p[..n]);
      assert p == p[..n] + [p[n]];
      PositionsAppend(Ones(p[..n]), p[..n], p[n]);
    }
  }

  lemma PositionsAppend(o: seq<int>, p: seq<int>, x: int)
    requires Positions(o, p)
    ensures Positions(o + if x != 0 then [|p|] else [], p + [x])
  {
    forall k | 0 <= k < |o|
      ensures o[k] < |p|
    {
      assert o[k] in o;
    }
  }

  lemma IndicatorOfOnes(p: seq<int>)
    requires IsHintPoly(p)
    ensures Indicator(Ones(p)) == p
  {
    OnesAreOnes(p);
  }

  lemma {:induction false} IncreasingFar(s: seq<int>, i: nat, j: nat)
    requires Increasing(s) && i <= j < |s|
    ensures s[i] <= s[j] && (i < j ==> s[i] < s[j])
    decreases j
  {
    if i < j {
      IncreasingFar(s, i, j - 1);
    }
  }

  /** The ones among the first n positions of an indicator are the listed positions below n. */
  lemma {:induction false} OnesOfPrefix(s: seq<int>, n: nat) returns (m: nat)
    requires Increasing(s) && IsDigits(s, 256) && n <= N
    ensures m <= |s| && Ones(Indicator(s)[..n]) == s[..m]
    ensures (forall j :: 0 <= j < m ==> s[j] < n) && (forall j :: m <= j < |s| ==> s[j] >= n)
    decreases n
  {
    if n == 0 {
      m := 0;
    } else {
      m := OnesOfPrefix(s, n - 1);
      var p := Indicator(s)[..n];
      assert p[..n - 1] == Indicator(s)[..n - 1];
      CutNext(s, n - 1, m);
      if n - 1 in s {
        assert s[..m + 1] == s[..m] + [n - 1];
        m := m + 1;
      }
    }
  }

  /** Moving the cut between the positions below n and the others past n itself. */
  lemma CutNext(s: seq<int>, n: nat, m: nat)
    requires Increasing(s) && m <= |s|
    requires (forall j :: 0 <= j < m ==> s[j] < n) && (forall j :: m <= j < |s| ==> s[j] >= n)
    ensures n in s <==> m < |s| && s[m] == n
    ensures forall j :: (if n in s then m + 1 else m) <= j < |s| ==> s[j] >= n + 1
  {
    forall j | m < j < |s|
      ensures s[j] > s[m] >= n
    {
      IncreasingFar(s, m, j);
    }
  }

  lemma OnesOfIndicator(s: seq<int>)
    requires Increasing(s) && IsDigits(s, 256)
    ensures Ones(Indicator(s)) == s
  {
    var last := if s == [] then 0 else s[|s| - 1];
    var m := OnesOfPrefix(s, N);
    assert m == |s| && s[..m] == s && Indicator(s)[..N] == Indicator(s);
  }

  /** Positions of the set coefficients of the first i polynomials, one list after the other. */
  function AllOnes(h: seq<seq<int>>, i: nat): seq<int>
    requires i <= |h|
    decreases i, |h|
  {
    if i == 0 then [] else AllOnes(h, i - 1) + Ones(h[i - 1])
  }

  predicate IsHint(h: seq<seq<int>>) {
    |h| == K && (forall i :: 0 <= i < K ==> IsHintPoly(h[i])) && |AllOnes(h, K)| <= OMEGA
  }

  function Zeros(n: nat): (z: seq<int>)
    ensures |z| == n
  {
    seq(n, i => 0)
  }

  function Counts(h: seq<seq<int>>): (c: seq<int>)
    requires |h| == K
    ensures |c| == K
  {
    seq(K, i requires 0 <= i < K => |AllOnes(h, i + 1)|)
  }

  /** The hint part of a signature: positions, zero padding to omega, cumulative counts. */
  function HintBytes(h: seq<seq<int>>): (b: seq<int>)
    requires IsHint(h)
    ensures |b| == OMEGA + K
  {
    AllOnes(h, K) + Zeros(OMEGA - |AllOnes(h, K)|) + Counts(h)
  }

  /** Where the positions of polynomial i end. */
  function End(b: seq<int>, i: nat): int
    requires |b| == OMEGA + K && i <= K
  {
    if i == 0 then 0 else b[OMEGA + i - 1]
  }

  predicate EndsOk(b: seq<int>, i: nat)
    requires |b| == OMEGA + K && i < K
  {
    End(b, i) <= End(b, i + 1) <= OMEGA
  }

  predicate SegmentOk(b: seq<int>, i: nat)
    requires |b| == OMEGA + K && IsDigits(b, 256) && i < K && EndsOk(b, i)
  {
    Increasing(b[End(b, i)..End(b, i + 1)])
  }

  /** The hint encodings a verifier accepts. */
  predicate ValidHint(b: seq<int>)
    requires |b| == OMEGA + K && IsDigits(b, 256)
  {
    && (forall i :: 0 <= i < K ==> EndsOk(b, i) && SegmentOk(b, i))
    && (forall j :: End(b, K) <= j < OMEGA ==> b[j] == 0)
  }

  function HintAt(b: seq<int>, i: nat): seq<int>
    requires |b| == OMEGA + K && IsDigits(b, 256) && i < K && EndsOk(b, i)
  {
    Indicator(b[End(b, i)..End(b, i + 1)])
  }

  function DecodeHint(b: seq<int>): Option<seq<seq<int>>>
    requires |b| == OMEGA + K && IsDigits(b, 256)
  {
    if ValidHint(b) then Some(seq(K, i requires 0 <= i < K => HintAt(b, i))) else None
  }

  lemma {:induction false} AllOnesGrows(h: seq<seq<int>>, i: nat, j: nat)
    requires i <= j <= |h|
    ensures |AllOnes(h, i)| <= |AllOnes(h, j)| && AllOnes(h, j)[..|AllOnes(h, i)|] == AllOnes(h, i)
    decreases j
  {
    if i < j {
      AllOnesGrows(h, i, j - 1);
    }
  }

  lemma {:induction false} AllOnesAreBytes(h: seq<seq<int>>, i: nat)
    requires i <= |h| && forall k :: 0 <= k < |h| ==> |h[k]| == N
    ensures IsDigits(AllOnes(h, i), 256)
  {
    if i > 0 {
      AllOnesAreBytes(h, i - 1);
      OnesAreOnes(h[i - 1]);
      var o := Ones(h[i - 1]);
      forall j | 0 <= j < |o|
        ensures 0 <= o[j] < 256
      {
        assert o[j] in o;
      }
    }
  }

  lemma HintBytesAreBytes(h: seq<seq<int>>)
    requires IsHint(h)
    ensures IsDigits(HintBytes(h), 256)
  {
    AllOnesAreBytes(h, K);
    forall i | 0 <= i < K
      ensures 0 <= Counts(h)[i] <= OMEGA
    {
      AllOnesGrows(h, i + 1, K);
    }
  }

  lemma SegmentOfHint(h: seq<seq<int>>, i: nat)
    requires IsHint(h) && i < K && IsDigits(HintBytes(h), 256)
    ensures EndsOk(HintBytes(h), i) && End(HintBytes(h), i + 1) == |AllOnes(h, i + 1)|
    ensures HintBytes(h)[End(HintBytes(h), i)..End(HintBytes(h), i + 1)] == Ones(h[i])
  {
    var b, a := HintBytes(h), AllOnes(h, K);
    AllOnesGrows(h, i, i + 1);
    AllOnesGrows(h, i + 1, K);
    assert End(b, i + 1) == Counts(h)[i];
    assert i > 0 ==> End(b, i) == Counts(h)[i - 1];
    assert b[..End(b, i + 1)] == a[..End(b, i + 1)] == AllOnes(h, i + 1);
    assert b[End(b, i)..End(b, i + 1)] == b[..End(b, i + 1)][End(b, i)..];
  }

  /** Decoding an encoded hint gives the hint back. */
  lemma DecodeOfEncodeHint(h: seq<seq<int>>)
    requires IsHint(h)
    ensures IsDigits(HintBytes(h), 256) && DecodeHint(HintBytes(h)) == Some(h)
  {
    HintBytesAreBytes(h);
    var b := HintBytes(h);
    forall i | 0 <= i < K
      ensures EndsOk(b, i) && SegmentOk(b, i) && HintAt(b, i) == h[i]
    {
      SegmentOfHint(h, i);
      OnesAreOnes(h[i]);
      IndicatorOfOnes(h[i]);
    }
    SegmentOfHint(h, K - 1);
    assert ValidHint(b);
    assert DecodeHint(b).value == h;
  }

  lemma DecodedAt(b: seq<int>, h: seq<seq<int>>, i: nat)
    requires |b| == OMEGA + K && IsDigits(b, 256) && DecodeHint(b) == Some(h) && i < K
    ensures 0 <= End(b, i) <= End(b, i + 1) <= OMEGA && |h| == K
    ensures Ones(h[i]) == b[End(b, i)..End(b, i + 1)]
  {
    assert EndsOk(b, i) && SegmentOk(b, i);
    var s := b[End(b, i)..End(b, i + 1)];
    OnesOfIndicator(s);
    assert h[i] == HintAt(b, i);
  }

  lemma {:induction false} AllOnesOfDecoded(b: seq<int>, h: seq<seq<int>>, i: nat)
    requires |b| == OMEGA + K && IsDigits(b, 256) && DecodeHint(b) == Some(h) && i <= K && |h| == K
    ensures 0 <= End(b, i) <= OMEGA && AllOnes(h, i) == b[..End(b, i)]
    decreases i
  {
    hide DecodeHint, IsDigits, Ones;
    if i > 0 {
      AllOnesOfDecoded(b, h, i - 1);
      DecodedAt(b, h, i - 1);
      assert b[..End(b, i)] == b[..End(b, i - 1)] + b[End(b, i - 1)..End(b, i)];
    }
  }

  /** Every hint encoding that is accepted is the encoding of what it decodes to. */
  lemma EncodeOfDecodeHint(b: seq<int>, h: seq<seq<int>>)
    requires |b| == OMEGA + K && IsDigits(b, 256) && DecodeHint(b) == Some(h)
    ensures IsHint(h) && HintBytes(h) == b
  {
    CountsOfDecoded(b, h);
    AllOnesOfDecoded(b, h, K);
    PaddingOfDecoded(b, h);
    hide AllOnes, Counts, DecodeHint, IsHintPoly, Zeros;
    var e := End(b, K);
    assert b == b[..e] + b[e..OMEGA] + b[OMEGA..];
  }

  lemma PaddingOfDecoded(b: seq<int>, h: seq<seq<int>>)
    requires |b| == OMEGA + K && IsDigits(b, 256) && DecodeHint(b) == Some(h) && 0 <= End(b, K) <= OMEGA
    ensures b[End(b, K)..OMEGA] == Zeros(OMEGA - End(b, K))
  {
  }

  lemma CountsOfDecoded(b: seq<int>, h: seq<seq<int>>)
    requires |b| == OMEGA + K && IsDigits(b, 256) && DecodeHint(b) == Some(h)
    ensures |h| == K && Counts(h) == b[OMEGA..] && forall i :: 0 <= i < K ==> IsHintPoly(h[i])
  {
    forall i | 0 <= i < K
      ensures Counts(h)[i] == b[OMEGA..][i] && IsHintPoly(h[i])
    {
      AllOnesOfDecoded(b, h, i + 1);
      assert h[i] == HintAt(b, i);
    }
  }

  // ---------------------------------------------------------------- equal-sized pieces

  function Flatten(v: seq<seq<int>>): seq<int> {
    if |v| == 0 then [] else Flatten(v[..|v| - 1]) + v[|v| - 1]
  }

  predicate Pieces(v: seq<seq<int>>, stride: nat) {
    forall i :: 0 <= i < |v| ==> |v[i]| == stride && IsDigits(v[i], 256)
  }

  function Chunk(data: seq<int>, i: nat, stride: nat): seq<int>
    requires 0 <= i * stride && (i + 1) * stride <= |data|
  {
    data[i * stride..(i + 1) * stride]
  }

  lemma ChunkFits(n: nat, i: nat, stride: nat)
    requires i < n
    ensures 0 <= i * stride && (i + 1) * stride == i * stride + stride && (i + 1) * stride <= n * stride
  {
    assert (n - i - 1) * stride >= 0;
    assert n * stride == (i + 1) * stride + (n - i - 1) * stride;
  }

  lemma {:induction false} FlattenSize(v: seq<seq<int>>, stride: nat)
    requires Pieces(v, stride)
    ensures |Flatten(v)| == |v| * stride && IsDigits(Flatten(v), 256)
  {
    if v != [] {
      FlattenSize(v[..|v| - 1], stride);
      ChunkFits(|v|, |v| - 1, stride);
    }
  }

  lemma {:induction false} ChunkOfFlatten(v: seq<seq<int>>, stride: nat, i: nat)
    requires Pieces(v, stride) && i < |v|
    ensures 0 <= i * stride && (i + 1) * stride <= |Flatten(v)| && Chunk(Flatten(v), i, stride) == v[i]
  {
    var u := v[..|v| - 1];
    FlattenSize(v, stride);
    FlattenSize(u, stride);
    ChunkFits(|v|, i, stride);
    if i < |u| {
      ChunkOfFlatten(u, stride, i);
    }
  }

  /** The pieces a string of n * stride bytes is cut into. */
  function Chunks(data: seq<int>, n: nat, stride: nat): (v: seq<seq<int>>)
    requires 0 <= n * stride <= |data|
    ensures |v| == n
  {
    seq(n, i requires 0 <= i < n => ChunkFits(n, i, stride); Chunk(data, i, stride))
  }

  lemma ChunksOfFlatten(v: seq<seq<int>>, stride: nat)
    requires Pieces(v, stride)
    ensures |Flatten(v)| == |v| * stride && IsDigits(Flatten(v), 256) && Chunks(Flatten(v), |v|, stride) == v
  {
    FlattenSize(v, stride);
    hide Flatten, Chunk;
    forall i | 0 <= i < |v|
      ensures Chunks(Flatten(v), |v|, stride)[i] == v[i]
    {
      ChunkOfFlatten(v, stride, i);
    }
  }

  lemma {:induction false} FlattenOfChunks(data: seq<int>, n: nat, stride: nat)
    requires |data| == n * stride && IsDigits(data, 256)
    ensures Pieces(Chunks(data, n, stride), stride) && Flatten(Chunks(data, n, stride)) == data
    decreases n
  {
    if n > 0 {
      ChunkFits(n, n - 1, stride);
      var d := data[..(n - 1) * stride];
      FlattenOfChunks(d, n - 1, stride);
      forall i | 0 <= i < n - 1
        ensures Chunks(data, n, stride)[i] == Chunks(d, n - 1, stride)[i]
      {
        ChunkFits(n - 1, i, stride);
      }
      assert Chunks(data, n, stride)[..n - 1] == Chunks(d, n - 1, stride);
      assert data == d + Chunk(data, n - 1, stride);
    }
  }

  // ---------------------------------------------------------------- signatures

  function PackVector(v: seq<seq<int>>, top: int, bits: nat): (r: seq<seq<int>>)
    ensures |r| == |v|
  {
    seq(|v|, i requires 0 <= i < |v| => PackPoly(v[i], top, bits))
  }

  function UnpackVector(pieces: seq<seq<int>>, top: int, bits: nat): (v: seq<seq<int>>)
    ensures |v| == |pieces| && forall i :: 0 <= i < |v| ==> |v[i]| == N && Reduced(v[i], Q)
  {
    seq(|pieces|, i requires 0 <= i < |pieces| => UnpackPoly(pieces[i], top, bits))
  }

  ghost predicate VectorInRange(v: seq<seq<int>>, top: int, bits: nat) {
    forall i :: 0 <= i < |v| ==> |v[i]| == N && InRange(v[i], top, bits)
  }

  lemma PackPolySize(p: seq<int>, top: int, bits: nat, stride: nat)
    requires |p| == N && N * bits == 8 * stride
    ensures |PackPoly(p, top, bits)| == stride && IsDigits(PackPoly(p, top, bits), 256)
  {
  }

  /** Encoding a vector of polynomials and cutting the bytes up again gives it back. */
  lemma VectorRoundTrip(v: seq<seq<int>>, top: int, bits: nat, stride: nat)
    requires VectorInRange(v, top, bits) && N * bits == 8 * stride
    ensures var data := Flatten(PackVector(v, top, bits));
      && |data| == |v| * stride && IsDigits(data, 256)
      && UnpackVector(Chunks(data, |v|, stride), top, bits) == v
  {
    hide InRange, PackPoly, UnpackPoly, Flatten, Chunks;
    var u := PackVector(v, top, bits);
    forall i | 0 <= i < |v|
      ensures |u[i]| == stride && IsDigits(u[i], 256) && UnpackPoly(u[i], top, bits) == v[i]
    {
      PackPolySize(v[i], top, bits, stride);
      UnpackOfPackPoly(v[i], top, bits);
    }
    ChunksOfFlatten(u, stride);
  }

  /** Cutting up and decoding bytes, then encoding, gives the bytes back. */
  lemma VectorBytesRoundTrip(data: seq<int>, n: nat, top: int, bits: nat, stride: nat)
    requires IsDigits(data, 256) && |data| == n * stride && N * bits == 8 * stride
    requires 0 <= top <= HALF && Pow(2, bits) - top - 1 <= HALF
    ensures var v := UnpackVector(Chunks(data, n, stride), top, bits);
      VectorInRange(v, top, bits) && Flatten(PackVector(v, top, bits)) == data
  {
    hide InRange, PackPoly, UnpackPoly, Flatten, Chunks, Pow;
    var c := Chunks(data, n, stride);
    var v := UnpackVector(c, top, bits);
    FlattenOfChunks(data, n, stride);
    forall i | 0 <= i < n
      ensures PackVector(v, top, bits)[i] == c[i] && InRange(v[i], top, bits)
    {
      PackOfUnpackPoly(c[i], top, bits);
    }
    assert PackVector(v, top, bits) == c;
  }

  predicate IsResponse(z: seq<seq<int>>) {
    |z| == L && forall i :: 0 <= i < L ==> |z[i]| == N
  }

  function SigEncode(c: seq<int>, z: seq<seq<int>>, h: seq<seq<int>>): seq<int>
    requires IsResponse(z) && IsHint(h)
  {
    c + Flatten(PackVector(z, GAMMA1, 20)) + HintBytes(h)
  }

  datatype Signature = Signature(c: seq<int>, z: seq<seq<int>>, h: seq<seq<int>>)

  function SigDecode(sig: seq<int>): Option<Signature>
    requires |sig| == SIGNATURE_LEN && IsDigits(sig, 256)
  {
    var body := sig[C_TILDE_LEN..C_TILDE_LEN + L * Z_STRIDE];
    match DecodeHint(sig[C_TILDE_LEN + L * Z_STRIDE..])
    case None => None
    case Some(h) => Some(Signature(sig[..C_TILDE_LEN], UnpackVector(Chunks(body, L, Z_STRIDE), GAMMA1, 20), h))
  }

  lemma TwoTo20()
    ensures Pow(2, 20) == 2 * GAMMA1
  {
    TwoTo8();
    assert Pow(2, 4) == 16;
    PowAdd(2, 8, 8);
    PowAdd(2, 16, 4);
  }

  /** The coefficients a signature can carry: (-gamma1, gamma1]. */
  ghost predicate ResponseInRange(z: seq<seq<int>>) {
    |z| == L && VectorInRange(z, GAMMA1, 20)
  }

  /** Main result: decoding an encoded signature gives its three parts back. */
  lemma DecodeOfEncode(c: seq<int>, z: seq<seq<int>>, h: seq<seq<int>>)
    requires IsDigits(c, 256) && |c| == C_TILDE_LEN && ResponseInRange(z) && IsHint(h)
    ensures |SigEncode(c, z, h)| == SIGNATURE_LEN && IsDigits(SigEncode(c, z, h), 256)
    ensures SigDecode(SigEncode(c, z, h)) == Some(Signature(c, z, h))
  {
    hide InRange, PackVector, UnpackVector, Chunks, Flatten, HintBytes, DecodeHint, IsHint;
    VectorRoundTrip(z, GAMMA1, 20, Z_STRIDE);
    DecodeOfEncodeHint(h);
    var s, body := SigEncode(c, z, h), Flatten(PackVector(z, GAMMA1, 20));
    assert s[..C_TILDE_LEN] == c && s[C_TILDE_LEN..C_TILDE_LEN + L * Z_STRIDE] == body;
    assert s[C_TILDE_LEN + L * Z_STRIDE..] == HintBytes(h);
  }

  lemma PackingParameters()
    ensures N * 20 == 8 * Z_STRIDE && 0 <= GAMMA1 <= HALF && 2 * GAMMA1 - GAMMA1 - 1 <= HALF
  {
  }

  /** Main result: every byte string that is accepted is the encoding of what it decodes to. */
  lemma EncodeOfDecode(sig: seq<int>, d: Signature)
    requires |sig| == SIGNATURE_LEN && IsDigits(sig, 256) && SigDecode(sig) == Some(d)
    ensures ResponseInRange(d.z) && IsHint(d.h) && |d.c| == C_TILDE_LEN
    ensures SigEncode(d.c, d.z, d.h) == sig
  {
    hide InRange, PackVector, UnpackVector, Chunks, Flatten, HintBytes, DecodeHint, IsHint, Pow;
    var b := sig[C_TILDE_LEN + L * Z_STRIDE..];
    var body := sig[C_TILDE_LEN..C_TILDE_LEN + L * Z_STRIDE];
    EncodeOfDecodeHint(b, d.h);
    TwoTo20();
    PackingParameters();
    VectorBytesRoundTrip(body, L, GAMMA1, 20, Z_STRIDE);
    assert sig == sig[..C_TILDE_LEN] + body + b;
  }

  // ---------------------------------------------------------------- the loops

  lemma {:induction false} OnesOfSlice(p: seq<int>, j: nat)
    requires j < |p|
    ensures Ones(p[..j + 1]) == Ones(p[..j]) + if p[j] != 0 then [j] else []
    ensures |Ones(p[..j + 1])| <= |Ones(p)|
    decreases |p| - j
  {
    assert p[..j + 1][..j] == p[..j];
    if j + 1 == |p| {
      assert p[..j + 1] == p;
    } else {
      OnesOfSlice(p, j + 1);
    }
  }

  /** The hint buffer in the middle of the encoding loops. */
  ghost predicate HintSoFar(hint: seq<int>, idx: nat, a: seq<int>, h: seq<seq<int>>, i: nat)
    requires |h| == K && i <= K
  {
    && |hint| == OMEGA + K && idx == |a| <= OMEGA
    && hint[..idx] == a
    && hint[idx..OMEGA] == Zeros(OMEGA - idx)
    && hint[OMEGA..OMEGA + i] == Counts(h)[..i]
  }

  lemma PutPosition(hint: seq<int>, idx: nat, a: seq<int>, h: seq<seq<int>>, i: nat, j: int)
    requires |h| == K && i <= K && HintSoFar(hint, idx, a, h, i) && idx < OMEGA
    ensures HintSoFar(hint[idx := j], idx + 1, a + [j], h, i)
  {
    hide Counts;
    var n := hint[idx := j];
    assert n[..idx + 1] == a + [j];
    assert n[idx + 1..OMEGA] == hint[idx..OMEGA][1..];
    assert Zeros(OMEGA - idx)[1..] == Zeros(OMEGA - idx - 1);
    assert n[OMEGA..OMEGA + i] == hint[OMEGA..OMEGA + i];
  }

  lemma PutCount(hint: seq<int>, idx: nat, h: seq<seq<int>>, i: nat)
    requires |h| == K && i < K && HintSoFar(hint, idx, AllOnes(h, i + 1), h, i)
    ensures HintSoFar(hint[OMEGA + i := idx], idx, AllOnes(h, i + 1), h, i + 1)
  {
    var n := hint[OMEGA + i := idx];
    assert n[..idx] == hint[..idx] && n[idx..OMEGA] == hint[idx..OMEGA];
    assert n[OMEGA..OMEGA + i + 1] == hint[OMEGA..OMEGA + i] + [idx];
    assert Counts(h)[..i + 1] == Counts(h)[..i] + [Counts(h)[i]];
  }

  method EncodeHint(h: seq<seq<int>>) returns (hint: seq<int>)
    requires IsHint(h)
    ensures hint == HintBytes(h)
  {
    hint := Zeros(OMEGA + K);
    var idx := 0;
    for i := 0 to K
      invariant 0 <= idx && HintSoFar(hint, idx, AllOnes(h, i), h, i)
    {
      hint, idx := EncodeOne(h, i, hint, idx);
    }
    assert hint == hint[..idx] + hint[idx..OMEGA] + hint[OMEGA..];
    assert Counts(h)[..K] == Counts(h);
  }

  /** The positions and the count of one polynomial. */
  method EncodeOne(h: seq<seq<int>>, i: nat, hint0: seq<int>, idx0: nat) returns (hint: seq<int>, idx: nat)
    requires IsHint(h) && i < K && HintSoFar(hint0, idx0, AllOnes(h, i), h, i)
    ensures HintSoFar(hint, idx, AllOnes(h, i + 1), h, i + 1)
  {
    hide Ones, HintSoFar;
    hint, idx := hint0, idx0;
    AllOnesGrows(h, i + 1, K);
    assert h[i][..0] == [];
    OnesOfEmpty(AllOnes(h, i));
    for j := 0 to N
      invariant HintSoFar(hint, idx, AllOnes(h, i) + Ones(h[i][..j]), h, i)
    {
      OnesOfSlice(h[i], j);
      SoFarSize(hint, idx, AllOnes(h, i) + Ones(h[i][..j]), h, i);
      if h[i][j] != 0 {
        PutPosition(hint, idx, AllOnes(h, i) + Ones(h[i][..j]), h, i, j);
        assert AllOnes(h, i) + Ones(h[i][..j]) + [j] == AllOnes(h, i) + Ones(h[i][..j + 1]);
        hint := hint[idx := j];
        idx := idx + 1;
      } else {
        assert Ones(h[i][..j]) + [] == Ones(h[i][..j]);
      }
    }
    assert h[i][..N] == h[i];
    SoFarSize(hint, idx, AllOnes(h, i + 1), h, i);
    PutCount(hint, idx, h, i);
    hint := hint[OMEGA + i := idx];
  }

  lemma OnesOfEmpty(a: seq<int>)
    ensures Ones([]) == [] && a + Ones([]) == a
  {
  }

  lemma SoFarSize(hint: seq<int>, idx: nat, a: seq<int>, h: seq<seq<int>>, i: nat)
    requires |h| == K && i <= K && HintSoFar(hint, idx, a, h, i)
    ensures |hint| == OMEGA + K && idx == |a| <= OMEGA
  {
  }

  lemma FlattenNext(v: seq<seq<int>>, i: nat)
    requires i < |v|
    ensures Flatten(v[..i + 1]) == Flatten(v[..i]) + v[i]
  {
    assert v[..i + 1][..i] == v[..i];
  }

  method EncodeSignature(c: seq<int>, z: seq<seq<int>>, h: seq<seq<int>>) returns (out: seq<int>)
    requires ResponseInRange(z) && IsHint(h)
    ensures out == SigEncode(c, z, h)
  {
    hide InRange, PackPoly, HintBytes, IsHint;
    out := c;
    ghost var u := PackVector(z, GAMMA1, 20);
    for i := 0 to L
      invariant out == c + Flatten(u[..i])
    {
      var p := EncodePoly(z[i], GAMMA1, 20);
      FlattenNext(u, i);
      out := out + p;
    }
    assert u[..L] == u;
    var hint := EncodeHint(h);
    out := out + hint;
  }

  /** One polynomial of the hint: nothing if its positions do not strictly increase. */
  method DecodeOne(b: seq<int>, k: nat, end: nat) returns (p: Option<seq<int>>)
    requires |b| == OMEGA + K && IsDigits(b, 256) && k <= end <= OMEGA
    ensures p == if Increasing(b[k..end]) then Some(Indicator(b[k..end])) else None
  {
    var h := Zeros(N);
    assert h == Indicator(b[k..k]);
    for j := k to end
      invariant h == Indicator(b[k..j]) && Increasing(b[k..j])
    {
      if j > k && b[j] <= b[j - 1] {
        assert b[k..end][j - k] <= b[k..end][j - k - 1];
        return None;
      }
      assert b[k..j + 1] == b[k..j] + [b[j]];
      h := h[b[j] := 1];
      assert h == Indicator(b[k..j + 1]);
    }
    p := Some(h);
  }

  method DecodeHintBytes(b: seq<int>) returns (r: Option<seq<seq<int>>>)
    requires |b| == OMEGA + K && IsDigits(b, 256)
    ensures r == DecodeHint(b)
  {
    hide Increasing, Indicator;
    var h: seq<seq<int>> := [];
    var k := 0;
    for i := 0 to K
      invariant |h| == i && 0 <= k <= OMEGA && k == End(b, i)
      invariant forall j :: 0 <= j < i ==> EndsOk(b, j) && SegmentOk(b, j) && h[j] == HintAt(b, j)
    {
      var end := b[OMEGA + i];
      if end < k || end > OMEGA {
        assert !EndsOk(b, i);
        return None;
      }
      assert EndsOk(b, i);
      var p := DecodeOne(b, k, end);
      if p.None? {
        assert !SegmentOk(b, i);
        return None;
      }
      h := h + [p.value];
      k := end;
    }
    for j := k to OMEGA
      invariant forall i :: k <= i < j ==> b[i] == 0
    {
      if b[j] != 0 {
        return None;
      }
    }
    assert ValidHint(b) && h == DecodeHint(b).value;
    r := Some(h);
  }

  lemma ChunkOfSignature(sig: seq<int>, i: nat)
    requires |sig| == SIGNATURE_LEN && IsDigits(sig, 256) && i < L
    ensures var off := C_TILDE_LEN + i * Z_STRIDE;
      IsDigits(sig[off..off + Z_STRIDE], 256)
      && sig[off..off + Z_STRIDE] == Chunks(sig[C_TILDE_LEN..C_TILDE_LEN + L * Z_STRIDE], L, Z_STRIDE)[i]
  {
    var body, off := sig[C_TILDE_LEN..C_TILDE_LEN + L * Z_STRIDE], C_TILDE_LEN + i * Z_STRIDE;
    var c := Chunks(body, L, Z_STRIDE)[i];
    forall k | 0 <= k < Z_STRIDE
      ensures sig[off..off + Z_STRIDE][k] == c[k]
    {
      assert c[k] == body[i * Z_STRIDE + k];
    }
  }

  method DecodeSignature(sig: seq<int>) returns (r: Option<Signature>)
    requires |sig| == SIGNATURE_LEN && IsDigits(sig, 256)
    ensures r == SigDecode(sig)
  {
    hide UnpackPoly, DecodeHint, Chunks;
    ghost var pieces := Chunks(sig[C_TILDE_LEN..C_TILDE_LEN + L * Z_STRIDE], L, Z_STRIDE);
    var z: seq<seq<int>> := [];
    var off := C_TILDE_LEN;
    for i := 0 to L
      invariant off == C_TILDE_LEN + i * Z_STRIDE && |z| == i
      invariant forall j :: 0 <= j < i ==> z[j] == UnpackPoly(pieces[j], GAMMA1, 20)
    {
      ChunkOfSignature(sig, i);
      var p := DecodePoly(sig[off..off + Z_STRIDE], GAMMA1, 20);
      z := z + [p];
      off := off + Z_STRIDE;
    }
    assert z == UnpackVector(pieces, GAMMA1, 20);
    var h := DecodeHintBytes(sig[off..]);
    match h
    case None => r := None;
    case Some(hint) => r := Some(Signature(sig[..C_TILDE_LEN], z, hint));
  }
}
