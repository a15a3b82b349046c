/**
 Key generation of ML-DSA-65 (section 6.1 of FIPS 204) and the key encodings, as
 functions of the seed and the two extendable-output functions.
 */
module MlDsaKeys {
  import opened Wrappers
  import opened NttLoops
  import opened MlDsaNtt
  import opened MlDsaRounding
  import opened MlDsaCodec
  import opened MlDsaSampling
  import opened MlDsaVectors
  import opened BitPacking
  import opened Digits
  import NttSpec
  import NttTheory
  import M = Modular

  const PUBLIC_KEY_LEN: nat := 1952
  const SECRET_KEY_LEN: nat := 4032
  const T1_STRIDE: nat := 320
  const ETA_STRIDE: nat := 128
  const T0_STRIDE: nat := 416
  const T0_TOP: int := 4096

  function Hash(sp: Sponges, data: seq<int>, n: nat): (r: seq<int>)
    ensures |r| == n && IsDigits(r, 256)
  {
    Take(sp.shake256(data), n)
  }

  // ---------------------------------------------------------------- expansion of the seeds

  function All<T>(v: seq<Option<T>>): (r: Option<seq<T>>)
    ensures r.Some? ==> |r.value| == |v| && forall i :: 0 <= i < |v| ==> v[i] == Some(r.value[i])
    ensures r.None? ==> exists i :: 0 <= i < |v| && v[i].None?
  {
    if forall i :: 0 <= i < |v| ==> v[i].Some? then Some(seq(|v|, i requires 0 <= i < |v| => v[i].value)) else None
  }

  function ExpandRow(sp: Sponges, rho: seq<int>, i: nat, limit: nat): Option<seq<seq<int>>> {
    All(seq(L, j requires 0 <= j < L => RejNttPoly(sp.shake128(rho + [j, i]), limit)))
  }

  function ExpandA(sp: Sponges, rho: seq<int>, limit: nat): Option<seq<seq<seq<int>>>> {
    All(seq(K, i requires 0 <= i < K => ExpandRow(sp, rho, i, limit)))
  }

  predicate IsMatrix(a: seq<seq<seq<int>>>) {
    |a| == K && forall i :: 0 <= i < K ==> IsVector(a[i], L)
  }

  lemma ExpandAIsMatrix(sp: Sponges, rho: seq<int>, limit: nat)
    requires ExpandA(sp, rho, limit).Some?
    ensures IsMatrix(ExpandA(sp, rho, limit).value)
  {
    hide RejNttPoly;
    var a := ExpandA(sp, rho, limit).value;
    forall i, j | 0 <= i < K && 0 <= j < L
      ensures |a[i]| == L && IsPoly(a[i][j])
    {
      assert ExpandRow(sp, rho, i, limit) == Some(a[i]);
      assert RejNttPoly(sp.shake128(rho + [j, i]), limit) == Some(a[i][j]);
      RejNttPolyReduced(sp.shake128(rho + [j, i]), limit);
    }
  }

  function LittleEndian16(x: nat): seq<int> {
    [x % 256, (x / 256) % 256]
  }

  function ExpandShort(sp: Sponges, rhoPrime: seq<int>, n: nat, first: nat, limit: nat): Option<seq<seq<int>>> {
    All(seq(n, r requires 0 <= r < n => RejBoundedPoly(sp.shake256(rhoPrime + LittleEndian16(first + r)), limit)))
  }

  predicate IsShortVector(v: seq<seq<int>>, n: nat) {
    |v| == n && forall i :: 0 <= i < n ==> IsShort(v[i])
  }

  lemma ExpandShortIsShort(sp: Sponges, rhoPrime: seq<int>, n: nat, first: nat, limit: nat)
    requires ExpandShort(sp, rhoPrime, n, first, limit).Some?
    ensures IsShortVector(ExpandShort(sp, rhoPrime, n, first, limit).value, n)
  {
    hide RejBoundedPoly, IsShort;
    var v := ExpandShort(sp, rhoPrime, n, first, limit).value;
    forall i | 0 <= i < n
      ensures IsShort(v[i])
    {
      assert RejBoundedPoly(sp.shake256(rhoPrime + LittleEndian16(first + i)), limit) == Some(v[i]);
      RejBoundedPolyShort(sp.shake256(rhoPrime + LittleEndian16(first + i)), limit);
    }
  }

  lemma ShortIsVector(v: seq<seq<int>>, n: nat)
    requires IsShortVector(v, n)
    ensures IsVector(v, n)
  {
  }

  // ---------------------------------------------------------------- keys

  datatype SecretKey = SecretKey(rho: seq<int>, key: seq<int>, tr: seq<int>,
                                 s1: seq<seq<int>>, s2: seq<seq<int>>, t0: seq<seq<int>>)

  datatype KeyPair = KeyPair(pk: seq<int>, sk: seq<int>)

  /** t = A s1 + s2, row i. */
  function PublicRow(row: seq<seq<int>>, s1: seq<seq<int>>, s2: seq<int>): (t: seq<int>)
    requires IsVector(row, L) && IsVector(s1, L) && IsPoly(s2)
    ensures IsPoly(t)
  {
    PolySum(Unhat(RowProduct(row, HatAll(s1, L), L)), s2)
  }

  function HighPart(t: seq<int>): (r: seq<int>)
    requires IsPoly(t)
    ensures IsPoly(r) && IsDigits(r, 1024)
  {
    var r := seq(N, j requires 0 <= j < N => Power2Round(t[j]).0);
    assert forall j :: 0 <= j < N ==> 0 <= r[j] < 1024 by {
      forall j | 0 <= j < N ensures 0 <= r[j] < 1024 { Power2RoundExact(t[j]); }
    }
    r
  }

  function LowPart(t: seq<int>): (r: seq<int>)
    requires IsPoly(t)
    ensures IsPoly(r)
  {
    seq(N, j requires 0 <= j < N => Power2Round(t[j]).1 % Q)
  }

  function PackT1(t1: seq<seq<int>>): (r: seq<seq<int>>)
    ensures |r| == |t1|
  {
    seq(|t1|, i requires 0 <= i < |t1| => Packed(t1[i], 10))
  }

  function UnpackT1(pieces: seq<seq<int>>): (t1: seq<seq<int>>)
    ensures |t1| == |pieces|
  {
    seq(|pieces|, i requires 0 <= i < |pieces| => Unpacked(pieces[i], 10, N))
  }

  function PkEncode(rho: seq<int>, t1: seq<seq<int>>): seq<int> {
    rho + Flatten(PackT1(t1))
  }

  datatype PublicKey = PublicKey(rho: seq<int>, t1: seq<seq<int>>)

  function PkDecode(pk: seq<int>): PublicKey
    requires |pk| == PUBLIC_KEY_LEN
  {
    PublicKey(pk[..32], UnpackT1(Chunks(pk[32..], K, T1_STRIDE)))
  }

  function SkEncode(k: SecretKey): seq<int> {
    k.rho + k.key + k.tr + Flatten(PackVector(k.s1, ETA, 4)) + Flatten(PackVector(k.s2, ETA, 4))
      + Flatten(PackVector(k.t0, T0_TOP, D))
  }

  function SkDecode(sk: seq<int>): (k: SecretKey)
    requires |sk| >= SECRET_KEY_LEN
    ensures IsVector(k.s1, L) && IsVector(k.s2, K) && IsVector(k.t0, K)
  {
    SecretKey(sk[..32], sk[32..64], sk[64..128],
              UnpackVector(Chunks(sk[128..768], L, ETA_STRIDE), ETA, 4),
              UnpackVector(Chunks(sk[768..1536], K, ETA_STRIDE), ETA, 4),
              UnpackVector(Chunks(sk[1536..4032], K, T0_STRIDE), T0_TOP, D))
  }

  function KeypairFromSeed(sp: Sponges, limit: nat, seed: seq<int>): Option<KeyPair> {
    var expanded := Hash(sp, seed + [K] + [L], 128);
    var rho, rhoPrime, key := expanded[..32], expanded[32..96], expanded[96..128];
    var a := ExpandA(sp, rho, limit);
    var s1, s2 := ExpandShort(sp, rhoPrime, L, 0, limit), ExpandShort(sp, rhoPrime, K, L, limit);
    if a.None? || s1.None? || s2.None? then None
    else
      ExpandAIsMatrix(sp, rho, limit);
      ExpandShortIsShort(sp, rhoPrime, L, 0, limit);
      ExpandShortIsShort(sp, rhoPrime, K, L, limit);
      ShortIsVector(s1.value, L);
      ShortIsVector(s2.value, K);
      Some(EncodeKeys(sp, rho, key, a.value, s1.value, s2.value))
  }

  function PublicVector(a: seq<seq<seq<int>>>, s1: seq<seq<int>>, s2: seq<seq<int>>): (t: seq<seq<int>>)
    requires IsMatrix(a) && IsVector(s1, L) && IsVector(s2, K)
    ensures IsVector(t, K)
  {
    seq(K, i requires 0 <= i < K => PublicRow(a[i], s1, s2[i]))
  }

  function HighParts(t: seq<seq<int>>): (r: seq<seq<int>>)
    requires IsVector(t, K)
    ensures IsVector(r, K) && forall i :: 0 <= i < K ==> IsDigits(r[i], 1024)
  {
    seq(K, i requires 0 <= i < K => HighPart(t[i]))
  }

  function LowParts(t: seq<seq<int>>): (r: seq<seq<int>>)
    requires IsVector(t, K)
    ensures IsVector(r, K)
  {
    seq(K, i requires 0 <= i < K => LowPart(t[i]))
  }

  function EncodeKeys(sp: Sponges, rho: seq<int>, key: seq<int>, a: seq<seq<seq<int>>>,
                      s1: seq<seq<int>>, s2: seq<seq<int>>): KeyPair
    requires IsMatrix(a) && IsVector(s1, L) && IsVector(s2, K)
  {
    var t := PublicVector(a, s1, s2);
    var pk := PkEncode(rho, HighParts(t));
    KeyPair(pk, SkEncode(SecretKey(rho, key, Hash(sp, pk, 64), s1, s2, LowParts(t))))
  }

  // ---------------------------------------------------------------- key encodings round-trip

  lemma TenBits()
    ensures NttSpec.Pow(2, 10) == 1024
  {
    BitPacking.TwoTo8();
    NttSpec.PowAdd(2, 8, 2);
    assert NttSpec.Pow(2, 2) == 4;
  }

  lemma PkRoundTrip(rho: seq<int>, t1: seq<seq<int>>)
    requires |rho| == 32 && IsDigits(rho, 256) && IsVector(t1, K)
    requires forall i :: 0 <= i < K ==> IsDigits(t1[i], 1024)
    ensures |PkEncode(rho, t1)| == PUBLIC_KEY_LEN && IsDigits(PkEncode(rho, t1), 256)
    ensures PkDecode(PkEncode(rho, t1)) == PublicKey(rho, t1)
  {
    TenBits();
    var u := PackT1(t1);
    assert forall i :: 0 <= i < K ==> |t1[i]| == N;
    hide NttSpec.Pow, Packed, Unpacked, Flatten, Chunks, IsVector;
    forall i | 0 <= i < K
      ensures |u[i]| == T1_STRIDE && IsDigits(u[i], 256) && Unpacked(u[i], 10, N) == t1[i]
    {
      UnpackOfPack(t1[i], 10);
    }
    ChunksOfFlatten(u, T1_STRIDE);
    var pk := PkEncode(rho, t1);
    assert pk[..32] == rho && pk[32..] == Flatten(u);
    assert UnpackT1(Chunks(Flatten(u), K, T1_STRIDE)) == t1;
  }

  predicate IsLow(p: seq<int>) {
    |p| == N && forall j :: 0 <= j < N ==> 0 <= p[j] < Q && -4096 < Center(p[j]) <= 4096
  }

  predicate LowInRange(t0: seq<seq<int>>) {
    |t0| == K && forall i :: 0 <= i < K ==> IsLow(t0[i])
  }

  lemma EtaRange(v: seq<seq<int>>, n: nat)
    requires IsShortVector(v, n)
    ensures VectorInRange(v, ETA, 4)
  {
    assert NttSpec.Pow(2, 4) == 16;
    hide NttSpec.Pow;
  }

  lemma T0Range(v: seq<seq<int>>)
    requires LowInRange(v)
    ensures VectorInRange(v, T0_TOP, D)
  {
    BitPacking.TwoTo8();
    NttSpec.PowAdd(2, 8, 5);
    assert NttSpec.Pow(2, 5) == 32;
    hide NttSpec.Pow;
  }

  lemma SkRoundTrip(k: SecretKey)
    requires |k.rho| == 32 && |k.key| == 32 && |k.tr| == 64
    requires IsShortVector(k.s1, L) && IsShortVector(k.s2, K) && LowInRange(k.t0)
    ensures |SkEncode(k)| == SECRET_KEY_LEN && SkDecode(SkEncode(k)) == k
  {
    EtaRange(k.s1, L);
    EtaRange(k.s2, K);
    T0Range(k.t0);
    hide VectorInRange, PackVector, UnpackVector, Chunks, Flatten, IsShortVector;
    assert |k.s1| == L && |k.s2| == K by { SizeOfShort(k.s1, L); SizeOfShort(k.s2, K); }
    VectorRoundTrip(k.s1, ETA, 4, ETA_STRIDE);
    VectorRoundTrip(k.s2, ETA, 4, ETA_STRIDE);
    VectorRoundTrip(k.t0, T0_TOP, D, T0_STRIDE);
    var f1, f2, f0 := Flatten(PackVector(k.s1, ETA, 4)), Flatten(PackVector(k.s2, ETA, 4)), Flatten(PackVector(k.t0, T0_TOP, D));
    SkLayout(k.rho, k.key, k.tr, f1, f2, f0);
  }

  lemma SizeOfShort(v: seq<seq<int>>, n: nat)
    requires IsShortVector(v, n)
    ensures |v| == n
  {
  }

  lemma SkLayout(rho: seq<int>, key: seq<int>, tr: seq<int>, f1: seq<int>, f2: seq<int>, f0: seq<int>)
    requires |rho| == 32 && |key| == 32 && |tr| == 64 && |f1| == 640 && |f2| == 768 && |f0| == 2496
    ensures var sk := rho + key + tr + f1 + f2 + f0;
      |sk| == 4032 && sk[..32] == rho && sk[32..64] == key && sk[64..128] == tr
      && sk[128..768] == f1 && sk[768..1536] == f2 && sk[1536..4032] == f0
  {
  }
}
