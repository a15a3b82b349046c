/** The loops of ML-DSA-65 over whole vectors, each proved against the functions of the other modules. */
module MlDsaApi {
  import opened Wrappers
  import opened NttLoops
  import opened MlDsaNtt
  import opened MlDsaRounding
  import opened MlDsaCodec
  import opened MlDsaSampling
  import opened MlDsaVectors
  import opened MlDsaKeys
  import opened MlDsaSignature
  import opened BitPacking
  import opened Digits
  import MlDsaCorrectness
  import NttSpec

  // ---------------------------------------------------------------- polynomials

  method PolyAdd(a: seq<int>, b: seq<int>) returns (r: seq<int>)
    requires IsPoly(a) && IsPoly(b)
    ensures r == PolySum(a, b)
  {
    var c := new int[N];
    for i := 0 to N
      invariant forall j :: 0 <= j < i ==> c[j] == (a[j] + b[j]) % Q
    {
      c[i] := AddMod(a[i], b[i]);
    }
    r := c[..];
  }

  method PolySub(a: seq<int>, b: seq<int>) returns (r: seq<int>)
    requires IsPoly(a) && IsPoly(b)
    ensures r == PolyDiff(a, b)
  {
    var c := new int[N];
    for i := 0 to N
      invariant forall j :: 0 <= j < i ==> c[j] == (a[j] - b[j]) % Q
    {
      c[i] := SubMod(a[i], b[i]);
    }
    r := c[..];
  }

  method PolyPointwise(a: seq<int>, b: seq<int>) returns (r: seq<int>)
    requires IsPoly(a) && IsPoly(b)
    ensures r == Times(a, b)
  {
    var c := new int[N];
    for i := 0 to N
      invariant forall j :: 0 <= j < i ==> c[j] == MulMod(a[j], b[j])
    {
      c[i] := MulMod(a[i], b[i]);
    }
    r := c[..];
  }

  /** A fresh array holding p. */
  method ToArray(p: seq<int>) returns (a: array<int>)
    requires |p| == N
    ensures fresh(a) && a.Length == N && a[..] == p
  {
    a := new int[N];
    for i := 0 to N
      invariant a[..i] == p[..i]
    {
      a[i] := p[i];
    }
    assert a[..N] == a[..] && p[..N] == p;
  }

  method NttPoly(p: seq<int>) returns (r: seq<int>)
    requires IsPoly(p)
    ensures r == Hat(p) && IsPoly(r)
  {
    hide NttSpec.Ntt;
    Exp2Values();
    var a := ToArray(p);
    MlDsaNtt.Ntt(a);
    r := a[..];
  }

  method InvNttPoly(p: seq<int>) returns (r: seq<int>)
    requires IsPoly(p)
    ensures r == Unhat(p) && IsPoly(r)
  {
    hide InvNttSpec;
    var a := ToArray(p);
    InvNtt(a);
    r := a[..];
  }

  method NttAll(v: seq<seq<int>>, n: nat) returns (r: seq<seq<int>>)
    requires IsVector(v, n)
    ensures r == HatAll(v, n)
  {
    hide Hat;
    r := [];
    for i := 0 to n
      invariant |r| == i && forall j :: 0 <= j < i ==> r[j] == Hat(v[j])
    {
      var p := NttPoly(v[i]);
      r := r + [p];
    }
  }

  /** The accumulating loop over one row of the matrix. */
  method MultiplyRow(row: seq<seq<int>>, v: seq<seq<int>>) returns (acc: seq<int>)
    requires IsVector(row, L) && IsVector(v, L)
    ensures acc == RowProduct(row, v, L)
  {
    hide PolySum, Times;
    acc := Zeros(N);
    for j := 0 to L
      invariant acc == RowProduct(row, v, j)
    {
      var p := PolyPointwise(row[j], v[j]);
      acc := PolyAdd(acc, p);
    }
  }

  method MultiplyMatrix(a: seq<seq<seq<int>>>, y: seq<seq<int>>) returns (w: seq<seq<int>>)
    requires IsMatrix(a) && IsVector(y, L)
    ensures w == Commitment(a, y)
  {
    hide RowProduct, HatAll, Unhat, IsVector;
    var yHat := NttAll(y, L);
    w := [];
    for i := 0 to K
      invariant |w| == i && forall j :: 0 <= j < i ==> w[j] == Unhat(RowProduct(a[j], yHat, L))
    {
      var acc := MultiplyRow(a[i], yHat);
      acc := InvNttPoly(acc);
      w := w + [acc];
    }
  }

  method MultiplyChallenge(c: seq<int>, v: seq<seq<int>>, n: nat) returns (r: seq<seq<int>>)
    requires IsPoly(c) && IsVector(v, n)
    ensures r == ChallengeTimes(c, v, n)
  {
    hide Hat, Unhat, Times;
    var cHat := NttPoly(c);
    var vHat := NttAll(v, n);
    r := [];
    for i := 0 to n
      invariant |r| == i && forall j :: 0 <= j < i ==> r[j] == Unhat(Times(cHat, Hat(v[j])))
    {
      var p := PolyPointwise(cHat, vHat[i]);
      p := InvNttPoly(p);
      r := r + [p];
    }
  }

  method AddAll(u: seq<seq<int>>, v: seq<seq<int>>, n: nat) returns (r: seq<seq<int>>)
    requires IsVector(u, n) && IsVector(v, n)
    ensures r == VectorSum(u, v, n)
  {
    hide PolySum;
    r := [];
    for i := 0 to n
      invariant |r| == i && forall j :: 0 <= j < i ==> r[j] == PolySum(u[j], v[j])
    {
      var p := PolyAdd(u[i], v[i]);
      r := r + [p];
    }
  }

  method SubAll(u: seq<seq<int>>, v: seq<seq<int>>, n: nat) returns (r: seq<seq<int>>)
    requires IsVector(u, n) && IsVector(v, n)
    ensures r == VectorDiff(u, v, n)
  {
    hide PolyDiff;
    r := [];
    for i := 0 to n
      invariant |r| == i && forall j :: 0 <= j < i ==> r[j] == PolyDiff(u[j], v[j])
    {
      var p := PolySub(u[i], v[i]);
      r := r + [p];
    }
  }

  // ---------------------------------------------------------------- norms

  /** The largest absolute centred coefficient; `bound` is any bound it will be compared with. */
  method NormInf(p: seq<int>, ghost bound: int) returns (m: int)
    requires bound > 0
    ensures m < bound <==> NormBelow(p, bound)
  {
    m := 0;
    for i := 0 to |p|
      invariant m < bound <==> NormBelow(p[..i], bound)
    {
      assert p[..i + 1] == p[..i] + [p[i]];
      var x := Abs(Center(p[i]));
      m := if x > m then x else m;
    }
    assert p[..|p|] == p;
  }

  method NormOf(v: seq<seq<int>>, ghost bound: int) returns (m: int)
    requires bound > 0
    ensures m < bound <==> NormsBelow(v, bound)
  {
    hide NormBelow;
    m := 0;
    for i := 0 to |v|
      invariant m < bound <==> NormsBelow(v[..i], bound)
    {
      assert v[..i + 1] == v[..i] + [v[i]];
      var x := NormInf(v[i], bound);
      m := if x > m then x else m;
    }
    assert v[..|v|] == v;
  }

  method LowInf(p: seq<int>, ghost bound: int) returns (m: int)
    requires bound > 0
    ensures m < bound <==> LowBelow(p, bound)
  {
    hide LowBits;
    m := 0;
    for i := 0 to |p|
      invariant m < bound <==> LowBelow(p[..i], bound)
    {
      assert p[..i + 1] == p[..i] + [p[i]];
      var x := Abs(LowBits(p[i]));
      m := if x > m then x else m;
    }
    assert p[..|p|] == p;
  }

  method LowOf(v: seq<seq<int>>, ghost bound: int) returns (m: int)
    requires bound > 0
    ensures m < bound <==> LowsBelow(v, bound)
  {
    hide LowBelow;
    m := 0;
    for i := 0 to |v|
      invariant m < bound <==> LowsBelow(v[..i], bound)
    {
      assert v[..i + 1] == v[..i] + [v[i]];
      var x := LowInf(v[i], bound);
      m := if x > m then x else m;
    }
    assert v[..|v|] == v;
  }

  // ---------------------------------------------------------------- high bits and hints

  lemma FlattenNone(v: seq<seq<int>>)
    ensures Flatten(v[..0]) == []
  {
  }

  method Encode4Loop(w1: seq<seq<int>>) returns (out: seq<int>)
    requires forall i :: 0 <= i < |w1| ==> |w1[i]| == N && IsDigits(w1[i], 16)
    ensures out == Encode4(w1)
  {
    assert NttSpec.Pow(2, 4) == 16;
    hide NttSpec.Pow, Packed, Flatten;
    var vals: seq<int> := [];
    FlattenNone(w1);
    for i := 0 to |w1|
      invariant vals == Flatten(w1[..i]) && IsDigits(vals, 16) && |vals| == N * i
    {
      FlattenNext(w1, i);
      vals := vals + w1[i];
    }
    assert w1[..|w1|] == w1;
    out := PackBits(vals, 4);
  }

  method HighBitsOf(w: seq<seq<int>>) returns (w1: seq<seq<int>>)
    ensures w1 == HighPolys(w)
  {
    hide HighBits;
    w1 := [];
    for i := 0 to |w|
      invariant |w1| == i && forall j :: 0 <= j < i ==> w1[j] == HighPoly(w[j])
    {
      w1 := w1 + [seq(|w[i]|, j requires 0 <= j < |w[i]| => HighBits(w[i][j]))];
    }
  }

  lemma HighPolysFit(w: seq<seq<int>>)
    ensures forall i :: 0 <= i < |w| ==> IsDigits(HighPolys(w)[i], 16)
  {
    hide Decompose;
    forall i, j | 0 <= i < |w| && 0 <= j < |w[i]|
      ensures 0 <= HighPolys(w)[i][j] < 16
    {
      DecomposeExact(w[i][j]);
    }
  }

  /** One polynomial of hints; `ones` counts the set ones so far. */
  method MakeHintPoly(ct0: seq<int>, r: seq<int>, ones0: nat) returns (h: seq<int>, ones: nat)
    requires IsPoly(ct0) && IsPoly(r)
    ensures h == HintPoly(ct0, PolySum(r, ct0)) && ones == ones0 + |Ones(h)|
  {
    hide MakeHint;
    h, ones := [], ones0;
    for j := 0 to N
      invariant |h| == j && ones == ones0 + |Ones(h)|
      invariant forall i :: 0 <= i < j ==> h[i] == HintPoly(ct0, PolySum(r, ct0))[i]
    {
      var minusCt0 := SubMod(0, ct0[j]);
      var sum := AddMod(r[j], ct0[j]);
      var bit := if MakeHint(minusCt0, sum) then 1 else 0;
      assert (h + [bit])[..j] == h;
      h := h + [bit];
      ones := ones + bit;
    }
  }

  method MakeHints(ct0: seq<seq<int>>, r: seq<seq<int>>) returns (h: seq<seq<int>>, ones: nat)
    requires IsVector(ct0, K) && IsVector(r, K)
    ensures h == Hints(ct0, r) && ones == |AllOnes(h, K)|
  {
    hide HintPoly, PolySum, Ones, AllOnes;
    h, ones := [], 0;
    AllOnesNone(h);
    for i := 0 to K
      invariant |h| == i && ones == |AllOnes(h, i)|
      invariant forall j :: 0 <= j < i ==> h[j] == HintPoly(ct0[j], PolySum(r[j], ct0[j]))
    {
      var p, n := MakeHintPoly(ct0[i], r[i], ones);
      AllOnesExtend(h, p);
      h, ones := h + [p], n;
    }
  }

  lemma AllOnesNone(h: seq<seq<int>>)
    ensures AllOnes(h, 0) == []
  {
  }

  lemma {:induction false} AllOnesPrefix(h: seq<seq<int>>, p: seq<int>, i: nat)
    requires i <= |h|
    ensures AllOnes(h + [p], i) == AllOnes(h, i)
    decreases i
  {
    if i > 0 {
      AllOnesPrefix(h, p, i - 1);
    }
  }

  lemma AllOnesExtend(h: seq<seq<int>>, p: seq<int>)
    ensures |AllOnes(h + [p], |h| + 1)| == |AllOnes(h, |h|)| + |Ones(p)|
  {
    AllOnesPrefix(h, p, |h|);
  }

  // ---------------------------------------------------------------- expansion

  method SampleRow(sp: Sponges, rho: seq<int>, i: nat, limit: nat) returns (row: Option<seq<seq<int>>>)
    ensures row == ExpandRow(sp, rho, i, limit)
  {
    hide RejNttPoly;
    var v: seq<seq<int>> := [];
    ghost var all := seq(L, j requires 0 <= j < L => RejNttPoly(sp.shake128(rho + [j, i]), limit));
    for j := 0 to L
      invariant |v| == j && forall k :: 0 <= k < j ==> all[k] == Some(v[k])
    {
      var p := SampleUniform(sp.shake128(rho + [j, i]), limit);
      assert p == all[j];
      if p.None? {
        return None;
      }
      v := v + [p.value];
    }
    assert All(all).value == v;
    row := Some(v);
  }

  method SampleMatrix(sp: Sponges, rho: seq<int>, limit: nat) returns (a: Option<seq<seq<seq<int>>>>)
    ensures a == ExpandA(sp, rho, limit)
  {
    hide ExpandRow;
    var v: seq<seq<seq<int>>> := [];
    ghost var all := seq(K, i requires 0 <= i < K => ExpandRow(sp, rho, i, limit));
    for i := 0 to K
      invariant |v| == i && forall k :: 0 <= k < i ==> all[k] == Some(v[k])
    {
      var row := SampleRow(sp, rho, i, limit);
      assert row == all[i];
      if row.None? {
        return None;
      }
      v := v + [row.value];
    }
    assert All(all).value == v;
    a := Some(v);
  }

  method SampleShort(sp: Sponges, rhoPrime: seq<int>, n: nat, first: nat, limit: nat) returns (s: Option<seq<seq<int>>>)
    ensures s == ExpandShort(sp, rhoPrime, n, first, limit)
  {
    hide RejBoundedPoly;
    var v: seq<seq<int>> := [];
    ghost var all := seq(n, r requires 0 <= r < n => RejBoundedPoly(sp.shake256(rhoPrime + LittleEndian16(first + r)), limit));
    for r := 0 to n
      invariant |v| == r && forall k :: 0 <= k < r ==> all[k] == Some(v[k])
    {
      var p := SampleBounded(sp.shake256(rhoPrime + LittleEndian16(first + r)), limit);
      assert p == all[r];
      if p.None? {
        return None;
      }
      v := v + [p.value];
    }
    assert All(all).value == v;
    s := Some(v);
  }

  method SampleMasks(sp: Sponges, rhoPP: seq<int>, kappa: nat) returns (y: seq<seq<int>>)
    ensures y == Mask(sp, rhoPP, kappa)
  {
    hide ExpandMask, IsPoly;
    y := [];
    for r := 0 to L
      invariant |y| == r && forall j :: 0 <= j < r ==> y[j] == MaskPoly(sp, rhoPP, kappa + j)
    {
      var p := SampleMask(sp.shake256(rhoPP + LittleEndian16((kappa + r) % KAPPA_MODULUS)));
      y := y + [p];
    }
  }

  // ---------------------------------------------------------------- key generation

  method EncodeVector(v: seq<seq<int>>, top: int, bits: nat) returns (out: seq<int>)
    requires 1 <= bits <= 32 && VectorInRange(v, top, bits)
    ensures out == Flatten(PackVector(v, top, bits))
  {
    hide PackPoly, InRange, Flatten;
    out := [];
    ghost var u := PackVector(v, top, bits);
    FlattenNone(u);
    for i := 0 to |v|
      invariant out == Flatten(u[..i])
    {
      var p := EncodePoly(v[i], top, bits);
      FlattenNext(u, i);
      out := out + p;
    }
    assert u[..|v|] == u;
  }

  method EncodePublicKey(rho: seq<int>, t1: seq<seq<int>>) returns (pk: seq<int>)
    requires IsVector(t1, K) && forall i :: 0 <= i < K ==> IsDigits(t1[i], 1024)
    ensures pk == PkEncode(rho, t1)
  {
    TenBits();
    hide NttSpec.Pow, Packed, Flatten;
    ghost var u := PackT1(t1);
    FlattenNone(u);
    pk := rho;
    for i := 0 to K
      invariant pk == rho + Flatten(u[..i])
    {
      var p := PackBits(t1[i], 10);
      FlattenNext(u, i);
      pk := pk + p;
    }
    assert u[..K] == u;
  }

  method RoundAll(t: seq<seq<int>>) returns (t1: seq<seq<int>>, t0: seq<seq<int>>)
    requires IsVector(t, K)
    ensures t1 == HighParts(t) && t0 == LowParts(t)
  {
    hide Power2Round;
    t1, t0 := [], [];
    for i := 0 to K
      invariant |t1| == |t0| == i
      invariant forall j :: 0 <= j < i ==> t1[j] == HighPart(t[j]) && t0[j] == LowPart(t[j])
    {
      var hi, lo := [], [];
      for j := 0 to N
        invariant |hi| == |lo| == j
        invariant forall k :: 0 <= k < j ==> hi[k] == HighPart(t[i])[k] && lo[k] == LowPart(t[i])[k]
      {
        var (a, b) := Power2Round(t[i][j]);
        hi, lo := hi + [a], lo + [b % Q];
      }
      assert hi == HighPart(t[i]) && lo == LowPart(t[i]);
      t1, t0 := t1 + [hi], t0 + [lo];
    }
  }

  method MakePublic(a: seq<seq<seq<int>>>, s1: seq<seq<int>>, s2: seq<seq<int>>) returns (t: seq<seq<int>>)
    requires IsMatrix(a) && IsVector(s1, L) && IsVector(s2, K)
    ensures t == PublicVector(a, s1, s2)
  {
    hide RowProduct, HatAll, Unhat, PolySum;
    var s1Hat := NttAll(s1, L);
    t := [];
    for i := 0 to K
      invariant |t| == i && forall j :: 0 <= j < i ==> t[j] == PublicRow(a[j], s1, s2[j])
    {
      var acc := MultiplyRow(a[i], s1Hat);
      acc := InvNttPoly(acc);
      acc := PolyAdd(acc, s2[i]);
      t := t + [acc];
    }
  }

  method EncodeSecretKey(k: SecretKey) returns (sk: seq<int>)
    requires IsShortVector(k.s1, L) && IsShortVector(k.s2, K) && LowInRange(k.t0)
    ensures sk == SkEncode(k)
  {
    EtaRange(k.s1, L);
    EtaRange(k.s2, K);
    T0Range(k.t0);
    hide VectorInRange, PackVector, Flatten;
    var p1 := EncodeVector(k.s1, ETA, 4);
    var p2 := EncodeVector(k.s2, ETA, 4);
    var p0 := EncodeVector(k.t0, T0_TOP, D);
    sk := k.rho + k.key + k.tr + p1 + p2 + p0;
  }

  method GenerateKeyPair(sp: Sponges, limit: nat, seed: seq<int>) returns (pair: Option<KeyPair>)
    ensures pair == KeypairFromSeed(sp, limit, seed)
  {
    hide ExpandA, ExpandShort, PublicVector, HighParts, LowParts, SkEncode, PkEncode, IsMatrix, IsVector, IsShortVector, LowInRange;
    var expanded := Hash(sp, seed + [K] + [L], 128);
    var rho, rhoPrime, key := expanded[..32], expanded[32..96], expanded[96..128];
    var a := SampleMatrix(sp, rho, limit);
    var s1 := SampleShort(sp, rhoPrime, L, 0, limit);
    var s2 := SampleShort(sp, rhoPrime, K, L, limit);
    if a.None? || s1.None? || s2.None? {
      return None;
    }
    ExpandAIsMatrix(sp, rho, limit);
    ExpandShortIsShort(sp, rhoPrime, L, 0, limit);
    ExpandShortIsShort(sp, rhoPrime, K, L, limit);
    ShortIsVector(s1.value, L);
    ShortIsVector(s2.value, K);
    var t := MakePublic(a.value, s1.value, s2.value);
    var t1, t0 := RoundAll(t);
    var pk := EncodePublicKey(rho, t1);
    MlDsaCorrectness.LowPartsInRange(t);
    var sk := EncodeSecretKey(SecretKey(rho, key, Hash(sp, pk, 64), s1.value, s2.value, t0));
    pair := Some(KeyPair(pk, sk));
  }

  // ---------------------------------------------------------------- signing

  method TryRespond(k: SecretKey, y: seq<seq<int>>, w: seq<seq<int>>, cTilde: seq<int>, c: seq<int>) returns (o: Outcome)
    requires IsVector(k.s1, L) && IsVector(k.s2, K) && IsVector(k.t0, K)
    requires IsVector(y, L) && IsVector(w, K) && IsPoly(c)
    ensures o == Respond(k, y, w, cTilde, c)
  {
    ParameterValues();
    assert Z_BOUND > 0 && LOW_BOUND > 0;
    hide VectorSum, VectorDiff, ChallengeTimes, NormsBelow, LowsBelow, Hints, AllOnes, IsVector, IsPoly, VectorInRange, SigEncode, IsHint, IsHintPoly;
    var cs1 := MultiplyChallenge(c, k.s1, L);
    var cs2 := MultiplyChallenge(c, k.s2, K);
    var z := AddAll(y, cs1, L);
    var r := SubAll(w, cs2, K);
    var zNorm := NormOf(z, Z_BOUND);
    var rNorm := LowOf(r, LOW_BOUND);
    if zNorm >= Z_BOUND || rNorm >= LOW_BOUND {
      return Retry;
    }
    var ct0 := MultiplyChallenge(c, k.t0, K);
    var h, ones := MakeHints(ct0, r);
    var tNorm := NormOf(ct0, GAMMA2);
    if tNorm >= GAMMA2 || ones > OMEGA {
      return Retry;
    }
    MlDsaCorrectness.BoundedResponseFits(z);
    HintWhenFew(h);
    var sig := EncodeSignature(cTilde, z, h);
    o := Signed(sig);
  }

  method TrySign(sp: Sponges, limit: nat, k: SecretKey, a: seq<seq<seq<int>>>, mu: seq<int>, rhoPP: seq<int>, kappa: nat)
      returns (o: Outcome)
    requires IsMatrix(a) && IsVector(k.s1, L) && IsVector(k.s2, K) && IsVector(k.t0, K)
    ensures o == SignAttempt(sp, limit, k, a, mu, rhoPP, kappa)
  {
    hide Mask, Commitment, HighPolys, Encode4, SampleInBall, Respond, IsVector, IsMatrix, IsPoly;
    var y := SampleMasks(sp, rhoPP, kappa);
    var w := MultiplyMatrix(a, y);
    var w1 := HighBitsOf(w);
    WellSized(w);
    var packed := Encode4Loop(w1);
    var cTilde := Hash(sp, mu + packed, C_TILDE_LEN);
    var c := SampleChallenge(sp.shake256(cTilde), limit);
    if c.None? {
      return OutOfBytes;
    }
    ChallengeIsPoly(sp.shake256(cTilde), limit);
    o := TryRespond(k, y, w, cTilde, c.value);
  }

  lemma WellSized(w: seq<seq<int>>)
    requires IsVector(w, K)
    ensures forall i :: 0 <= i < |HighPolys(w)| ==> |HighPolys(w)[i]| == N && IsDigits(HighPolys(w)[i], 16)
  {
    HighPolysFit(w);
  }

  method SignMessage(sp: Sponges, limit: nat, attempts: nat, sk: seq<int>, message: seq<int>) returns (sig: Option<seq<int>>)
    requires |sk| >= SECRET_KEY_LEN
    ensures sig == Sign(sp, limit, attempts, sk, message)
  {
    hide ExpandA, SignAttempt, SkDecode, MessageHash, IsVector, IsMatrix;
    var k := SkDecode(sk);
    var a := SampleMatrix(sp, k.rho, limit);
    if a.None? {
      return None;
    }
    ExpandAIsMatrix(sp, k.rho, limit);
    var mu := MessageHash(sp, k.tr, message);
    var rhoPP := Hash(sp, k.key + Zeros(32) + mu, 64);
    var kappa, left := 0, attempts;
    while left > 0
      invariant 0 <= left && 0 <= kappa
      invariant SignFrom(sp, limit, k, a.value, mu, rhoPP, kappa, left) == Sign(sp, limit, attempts, sk, message)
    {
      var o := TrySign(sp, limit, k, a.value, mu, rhoPP, kappa);
      kappa := (kappa + L) % KAPPA_MODULUS;
      left := left - 1;
      match o
      case OutOfBytes => return None;
      case Signed(s) => return Some(s);
      case Retry =>
    }
    sig := None;
  }

  // ---------------------------------------------------------------- verification

  method ScaleHat(t1: seq<int>) returns (r: seq<int>)
    requires |t1| == N
    ensures r == Hat(Scaled(t1)) && IsPoly(r)
  {
    hide Hat;
    var p: seq<int> := [];
    for j := 0 to N
      invariant |p| == j && forall i :: 0 <= i < j ==> p[i] == Scaled(t1)[i]
    {
      p := p + [(t1[j] * 8192) % Q];
    }
    assert p == Scaled(t1);
    r := NttPoly(p);
  }

  method ApproximateRow(row: seq<seq<int>>, zHat: seq<seq<int>>, cHat: seq<int>, t1: seq<int>,
                        ghost z: seq<seq<int>>, ghost c: seq<int>) returns (r: seq<int>)
    requires IsVector(row, L) && IsVector(z, L) && IsPoly(c) && |t1| == N
    requires zHat == HatAll(z, L) && cHat == Hat(c)
    ensures r == Approximate(row, z, c, t1)
  {
    hide HatAll, Hat, Unhat, RowProduct, Times, PolyDiff, Scaled;
    var az := MultiplyRow(row, zHat);
    var tHat := ScaleHat(t1);
    var ct1 := PolyPointwise(cHat, tHat);
    r := PolySub(az, ct1);
    r := InvNttPoly(r);
  }

  method Recover(a: seq<seq<seq<int>>>, z: seq<seq<int>>, c: seq<int>, t1: seq<seq<int>>, h: seq<seq<int>>)
      returns (w1: seq<seq<int>>)
    requires IsMatrix(a) && IsVector(z, L) && IsPoly(c)
    requires |t1| == |h| == K && forall i :: 0 <= i < K ==> |t1[i]| == N && |h[i]| == N
    ensures w1 == Recovered(a, z, c, t1, h)
  {
    hide Approximate, HatAll, Hat, UseHint, IsVector;
    var zHat := NttAll(z, L);
    var cHat := NttPoly(c);
    w1 := [];
    for i := 0 to K
      invariant |w1| == i && forall j :: 0 <= j < i ==> w1[j] == UseHintPoly(h[j], Approximate(a[j], z, c, t1[j]))
    {
      var approx := ApproximateRow(a[i], zHat, cHat, t1[i], z, c);
      w1 := w1 + [seq(N, j requires 0 <= j < N => UseHint(h[i][j] != 0, approx[j]))];
    }
  }

  lemma RecoveredFits(a: seq<seq<seq<int>>>, z: seq<seq<int>>, c: seq<int>, t1: seq<seq<int>>, h: seq<seq<int>>)
    requires IsMatrix(a) && IsVector(z, L) && IsPoly(c)
    requires |t1| == |h| == K && forall i :: 0 <= i < K ==> |t1[i]| == N && |h[i]| == N
    ensures forall i :: 0 <= i < K ==> |Recovered(a, z, c, t1, h)[i]| == N && IsDigits(Recovered(a, z, c, t1, h)[i], 16)
  {
    hide Decompose, Approximate, IsVector;
    forall i, j | 0 <= i < K && 0 <= j < N
      ensures 0 <= Recovered(a, z, c, t1, h)[i][j] < 16
    {
      DecomposeExact(Approximate(a[i], z, c, t1[i])[j]);
    }
  }

  method VerifySignature(sp: Sponges, limit: nat, pk: seq<int>, message: seq<int>, sig: seq<int>) returns (ok: Option<bool>)
    requires IsDigits(sig, 256)
    ensures ok == Verify(sp, limit, pk, message, sig)
  {
    ParameterValues();
    assert Z_BOUND > 0;
    hide SigDecode, PkDecode, NormsBelow, ExpandA, SampleInBall, Recovered, Encode4, MessageHash, IsVector, IsMatrix, IsPoly, IsDigits;
    if |pk| != PUBLIC_KEY_LEN || |sig| != SIGNATURE_LEN {
      return Some(false);
    }
    var key := PkDecode(pk);
    var decoded := DecodeSignature(sig);
    if decoded.None? {
      return Some(false);
    }
    var d := decoded.value;
    var zNorm := NormOf(d.z, Z_BOUND);
    if zNorm >= Z_BOUND {
      return Some(false);
    }
    var a := SampleMatrix(sp, key.rho, limit);
    var c := SampleChallenge(sp.shake256(d.c), limit);
    if a.None? || c.None? {
      return None;
    }
    ExpandAIsMatrix(sp, key.rho, limit);
    ChallengeIsPoly(sp.shake256(d.c), limit);
    DecodedShape(sig, d);
    KeyShape(pk);
    var w1 := Recover(a.value, d.z, c.value, key.t1, d.h);
    RecoveredFits(a.value, d.z, c.value, key.t1, d.h);
    var packed := Encode4Loop(w1);
    var mu := MessageHash(sp, Hash(sp, pk, 64), message);
    ok := Some(Hash(sp, mu + packed, C_TILDE_LEN) == d.c);
  }

  lemma KeyShape(pk: seq<int>)
    requires |pk| == PUBLIC_KEY_LEN
    ensures |PkDecode(pk).t1| == K && forall i :: 0 <= i < K ==> |PkDecode(pk).t1[i]| == N
  {
  }
}
