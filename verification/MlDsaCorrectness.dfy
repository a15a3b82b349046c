/** Every signature that signing returns for a generated key is accepted by verification. */
module MlDsaCorrectness {
  import opened Wrappers
  import opened NttLoops
  import opened MlDsaNtt
  import opened MlDsaRounding
  import opened MlDsaCodec
  import opened MlDsaSampling
  import opened MlDsaVectors
  import opened MlDsaKeys
  import opened MlDsaSignature
  import opened Digits
  import NttSpec
  import NttTheory
  import M = Modular

  // ---------------------------------------------------------------- A z - c t1 2^d == w - c s2 + c t0

  /** The row equation in the transformed domain. */
  lemma RowOfResponse(row: seq<seq<int>>, y: seq<seq<int>>, s1: seq<seq<int>>, c: seq<int>, z: seq<seq<int>>, i: nat)
    requires IsVector(row, L) && IsVector(y, L) && IsVector(s1, L) && IsPoly(c) && i < N
    requires z == VectorSum(y, ChallengeTimes(c, s1, L), L)
    ensures RowProduct(row, HatAll(z, L), L)[i] % Q
         == (RowProduct(row, HatAll(y, L), L)[i] + Hat(c)[i] * RowProduct(row, HatAll(s1, L), L)[i]) % Q
  {
    hide NttFun, InvNttSpec, RowProduct;
    var zh, yh, sh, ch := HatAll(z, L), HatAll(y, L), HatAll(s1, L), Hat(c);
    forall j | 0 <= j < L
      ensures Coef(zh, j, i) % Q == (Coef(yh, j, i) + ch[i] * Coef(sh, j, i)) % Q
    {
      HatOfResponse(y[j], c, s1[j], i);
    }
    RowLinear(row, zh, yh, ch[i], sh, L, i);
  }

  lemma HatOfResponse(y: seq<int>, c: seq<int>, s: seq<int>, i: nat)
    requires IsPoly(y) && IsPoly(c) && IsPoly(s) && i < N
    ensures Hat(PolySum(y, Unhat(Times(Hat(c), Hat(s)))))[i] % Q == (Hat(y)[i] + Hat(c)[i] * Hat(s)[i]) % Q
  {
    hide Hat, Unhat;
    var u := Times(Hat(c), Hat(s));
    HatOfSum(y, Unhat(u));
    HatInverse(u);
    var a, b := Hat(y)[i], Hat(c)[i] * Hat(s)[i];
    M.Reduce(b, Q);
    M.Add(a, a, b % Q, b, Q);
    M.Reduce(a + b % Q, Q);
  }

  /** t is A s1 + s2 and also t1 2^d + t0. */
  lemma PublicRowParts(row: seq<seq<int>>, s1: seq<seq<int>>, s2: seq<int>, i: nat)
    requires IsVector(row, L) && IsVector(s1, L) && IsPoly(s2) && i < N
    ensures var t := PublicRow(row, s1, s2);
      && Hat(t)[i] % Q == (RowProduct(row, HatAll(s1, L), L)[i] + Hat(s2)[i]) % Q
      && Hat(t)[i] % Q == (Hat(Scaled(HighPart(t)))[i] + Hat(LowPart(t))[i]) % Q
  {
    hide RowProduct, HatAll, Hat, Unhat;
    var u := RowProduct(row, HatAll(s1, L), L);
    var t := PublicRow(row, s1, s2);
    HatOfSum(Unhat(u), s2);
    HatInverse(u);
    M.Reduce(u[i] + Hat(s2)[i], Q);
    Recombine(t);
    HatOfSum(Scaled(HighPart(t)), LowPart(t));
    M.Reduce(Hat(Scaled(HighPart(t)))[i] + Hat(LowPart(t))[i], Q);
  }

  lemma Recombine(t: seq<int>)
    requires IsPoly(t)
    ensures PolySum(Scaled(HighPart(t)), LowPart(t)) == t
  {
    forall j | 0 <= j < N
      ensures PolySum(Scaled(HighPart(t)), LowPart(t))[j] == t[j]
    {
      RecombineAt(t[j], Power2Round(t[j]).0, Power2Round(t[j]).1);
    }
  }

  lemma RecombineAt(t: int, hi: int, lo: int)
    requires 0 <= t < Q && Power2Round(t) == (hi, lo)
    ensures ((hi * 8192) % Q + lo % Q) % Q == t
  {
    Power2RoundExact(t);
    M.Reduce(hi * 8192, Q);
    M.Reduce(lo, Q);
    M.Add((hi * 8192) % Q, hi * 8192, lo % Q, lo, Q);
  }

  /** What verification computes from (z, c, t1) is w - c s2 + c t0. */
  lemma ApproximateExact(row: seq<seq<int>>, y: seq<seq<int>>, s1: seq<seq<int>>, s2: seq<int>, c: seq<int>, z: seq<seq<int>>)
    requires IsVector(row, L) && IsVector(y, L) && IsVector(s1, L) && IsPoly(s2) && IsPoly(c)
    requires z == VectorSum(y, ChallengeTimes(c, s1, L), L)
    ensures var t := PublicRow(row, s1, s2);
      Approximate(row, z, c, HighPart(t)) == PolySum(PolyDiff(Unhat(RowProduct(row, HatAll(y, L), L)),
                                                              Unhat(Times(Hat(c), Hat(s2)))),
                                                     Unhat(Times(Hat(c), Hat(LowPart(t)))))
  {
    var t := PublicRow(row, s1, s2);
    var t0, t1 := LowPart(t), Scaled(HighPart(t));
    hide *;
    var az, u := RowProduct(row, HatAll(z, L), L), RowProduct(row, HatAll(y, L), L);
    var cs, ct0, ct1 := Times(Hat(c), Hat(s2)), Times(Hat(c), Hat(t0)), Times(Hat(c), Hat(t1));
    assert PolyDiff(az, ct1) == PolySum(PolyDiff(u, cs), ct0) by {
      SameTransform(row, y, s1, s2, c, z);
    }
    UnhatOfSum(u, cs);
    UnhatOfSum(PolyDiff(u, cs), ct0);
    ApproximateIs(row, z, c, t);
  }

  lemma ApproximateIs(row: seq<seq<int>>, z: seq<seq<int>>, c: seq<int>, t: seq<int>)
    requires IsVector(row, L) && IsVector(z, L) && IsPoly(c) && IsPoly(t)
    ensures Approximate(row, z, c, HighPart(t))
         == Unhat(PolyDiff(RowProduct(row, HatAll(z, L), L), Times(Hat(c), Hat(Scaled(HighPart(t))))))
  {
  }

  lemma SameTransform(row: seq<seq<int>>, y: seq<seq<int>>, s1: seq<seq<int>>, s2: seq<int>, c: seq<int>, z: seq<seq<int>>)
    requires IsVector(row, L) && IsVector(y, L) && IsVector(s1, L) && IsPoly(s2) && IsPoly(c)
    requires z == VectorSum(y, ChallengeTimes(c, s1, L), L)
    ensures var t := PublicRow(row, s1, s2);
      PolyDiff(RowProduct(row, HatAll(z, L), L), Times(Hat(c), Hat(Scaled(HighPart(t)))))
      == PolySum(PolyDiff(RowProduct(row, HatAll(y, L), L), Times(Hat(c), Hat(s2))), Times(Hat(c), Hat(LowPart(t))))
  {
    hide RowProduct, HatAll, Hat, Unhat, PublicRow, HighPart, LowPart, Scaled, VectorSum, ChallengeTimes, PolySum, PolyDiff, Times;
    var t := PublicRow(row, s1, s2);
    var az, u, v := RowProduct(row, HatAll(z, L), L), RowProduct(row, HatAll(y, L), L), RowProduct(row, HatAll(s1, L), L);
    var ch, sh, t0, t1 := Hat(c), Hat(s2), Hat(LowPart(t)), Hat(Scaled(HighPart(t)));
    var p, q := PolyDiff(az, Times(ch, t1)), PolySum(PolyDiff(u, Times(ch, sh)), Times(ch, t0));
    forall i | 0 <= i < N
      ensures p[i] == q[i]
    {
      RowOfResponse(row, y, s1, c, z, i);
      PublicRowParts(row, s1, s2, i);
      ApproxCoef(az[i], u[i], v[i], ch[i], sh[i], Hat(t)[i], t1[i], t0[i]);
      SameAt(az, u, ch, t1, sh, t0, i);
    }
    assert p == q;
  }

  lemma SameAt(az: seq<int>, u: seq<int>, ch: seq<int>, t1: seq<int>, sh: seq<int>, t0: seq<int>, i: nat)
    requires i < N && IsPoly(az) && IsPoly(u) && IsPoly(ch) && IsPoly(t1) && IsPoly(sh) && IsPoly(t0)
    requires (az[i] - ch[i] * t1[i]) % Q == (u[i] - ch[i] * sh[i] + ch[i] * t0[i]) % Q
    ensures PolyDiff(az, Times(ch, t1))[i] == PolySum(PolyDiff(u, Times(ch, sh)), Times(ch, t0))[i]
  {
    SameReduced(az[i], u[i], ch[i] * t1[i], ch[i] * sh[i], ch[i] * t0[i]);
  }

  lemma SameReduced(a: int, u: int, x: int, y: int, w: int)
    requires (a - x) % Q == (u - y + w) % Q
    ensures (a - x % Q) % Q == ((u - y % Q) % Q + w % Q) % Q
  {
    M.Reduce(x, Q);
    M.Reduce(y, Q);
    M.Reduce(w, Q);
    M.Add(a, a, x % Q, x, Q);
    M.Add(u, u, y % Q, y, Q);
    M.Reduce(u - y % Q, Q);
    M.Add((u - y % Q) % Q, u - y, w % Q, w, Q);
  }

  // ---------------------------------------------------------------- the hints recover w1

  lemma MinusModulo(x: int)
    requires 0 <= x < Q
    ensures 0 <= (-x) % Q < Q && Abs(Center((-x) % Q)) == Abs(Center(x))
  {
    if x == 0 {
      M.Small(0, Q);
    } else {
      M.Multiple(-x, Q - x, -1, Q);
      M.Small(Q - x, Q);
    }
  }

  lemma SumsBack(w: int, x: int, y: int, r: int, ap: int, z: int)
    requires 0 <= w < Q && r == (w - x) % Q && ap == (r + y) % Q && z == (-y) % Q
    ensures (ap + z) % Q == r && (r + x) % Q == w
  {
    M.Reduce(w - x, Q);
    M.Reduce(r + y, Q);
    M.Reduce(-y, Q);
    M.Add(ap, r + y, z, -y, Q);
    M.Add(r, w - x, x, x, Q);
    M.Small(w, Q);
  }

  /** One coefficient: the hint, applied to what verification computes, gives the high bits of w. */
  lemma HintGivesHighBits(w: int, cs2: int, ct0: int)
    requires 0 <= w < Q && 0 <= cs2 < Q && 0 <= ct0 < Q
    requires Abs(Center(cs2)) <= BETA && Abs(Center(ct0)) < GAMMA2 && Abs(LowBits((w - cs2) % Q)) < LOW_BOUND
    ensures var ap := ((w - cs2) % Q + ct0) % Q;
      UseHint(MakeHint((-ct0) % Q, ap), ap) == HighBits(w)
  {
    hide UseHint, MakeHint, Decompose;
    var r := (w - cs2) % Q;
    var ap, z := (r + ct0) % Q, (-ct0) % Q;
    MinusModulo(ct0);
    SumsBack(w, cs2, ct0, r, ap, z);
    M.Small(z, Q);
    M.Small(cs2, Q);
    HintRecovers(z, ap);
    DecomposeReduced(ap + z);
    SmallChangeKeepsHighBits(r, cs2);
    DecomposeReduced(r + cs2);
  }

  lemma RecoveredPoly(w: seq<int>, cs2: seq<int>, ct0: seq<int>)
    requires IsPoly(w) && IsPoly(cs2) && IsPoly(ct0)
    requires forall j :: 0 <= j < N ==> Abs(Center(cs2[j])) <= BETA
    requires NormBelow(ct0, GAMMA2) && LowBelow(PolyDiff(w, cs2), LOW_BOUND)
    ensures var r := PolySum(PolyDiff(w, cs2), ct0);
      UseHintPoly(HintPoly(ct0, r), r) == HighPoly(w)
  {
    hide UseHint, MakeHint, HighBits, LowBits, Center;
    var d := PolyDiff(w, cs2);
    var r := PolySum(d, ct0);
    forall j | 0 <= j < N
      ensures UseHintPoly(HintPoly(ct0, r), r)[j] == HighPoly(w)[j]
    {
      assert Abs(LowBits(d[j])) < LOW_BOUND;
      HintGivesHighBits(w[j], cs2[j], ct0[j]);
    }
  }

  /** The product of the challenge with a secret polynomial is short. */
  lemma SecretProductShort(c: seq<int>, s: seq<int>)
    requires IsPoly(c) && Weight(c, N) == TAU && IsShort(s)
    ensures IsPoly(s) && forall j :: 0 <= j < N ==> Abs(Center(Unhat(Times(Hat(c), Hat(s)))[j])) <= BETA
  {
    hide Weight;
    var p := Unhat(Times(Hat(c), Hat(s)));
    NttMultiplies(c, s);
    hide NttFun, InvNttSpec, Center, Abs;
    forall j | 0 <= j < N
      ensures Abs(Center(p[j])) <= BETA
    {
      ChallengeProductShort(c, s, j);
    }
  }

  // ---------------------------------------------------------------- whole signatures

  /** What an accepted pass of the signing loop established. */
  lemma AcceptedPass(k: SecretKey, y: seq<seq<int>>, w: seq<seq<int>>, cTilde: seq<int>, c: seq<int>, sig: seq<int>)
      returns (z: seq<seq<int>>, r: seq<seq<int>>, ct0: seq<seq<int>>)
    requires IsVector(k.s1, L) && IsVector(k.s2, K) && IsVector(k.t0, K)
    requires IsVector(y, L) && IsVector(w, K) && IsPoly(c)
    requires Respond(k, y, w, cTilde, c) == Signed(sig)
    ensures z == VectorSum(y, ChallengeTimes(c, k.s1, L), L)
    ensures r == VectorDiff(w, ChallengeTimes(c, k.s2, K), K)
    ensures ct0 == ChallengeTimes(c, k.t0, K) && IsVector(ct0, K) && IsVector(r, K) && IsVector(z, L)
    ensures NormsBelow(z, Z_BOUND) && LowsBelow(r, LOW_BOUND) && NormsBelow(ct0, GAMMA2)
    ensures IsResponse(z) && IsHint(Hints(ct0, r)) && sig == SigEncode(cTilde, z, Hints(ct0, r))
  {
    hide VectorSum, VectorDiff, ChallengeTimes, NormsBelow, LowsBelow, Hints, AllOnes, SigEncode;
    z := VectorSum(y, ChallengeTimes(c, k.s1, L), L);
    r := VectorDiff(w, ChallengeTimes(c, k.s2, K), K);
    ct0 := ChallengeTimes(c, k.t0, K);
  }

  /** Responses below the bound fit the 20-bit encoding. */
  lemma BoundedResponseFits(z: seq<seq<int>>)
    requires IsVector(z, L) && NormsBelow(z, Z_BOUND)
    ensures ResponseInRange(z)
  {
    TwoTo20();
    ParameterValues();
    hide NttSpec.Pow;
    forall i, j | 0 <= i < L && 0 <= j < N
      ensures GAMMA1 - NttSpec.Pow(2, 20) < Center(z[i][j]) <= GAMMA1
    {
      assert NormBelow(z[i], Z_BOUND);
      assert Abs(Center(z[i][j])) < Z_BOUND;
    }
  }

  /** The rows recovered by verification are the high parts of the commitment. */
  lemma RecoveredIsCommitment(k: SecretKey, a: seq<seq<seq<int>>>, y: seq<seq<int>>, c: seq<int>,
                              z: seq<seq<int>>, r: seq<seq<int>>, ct0: seq<seq<int>>)
    requires IsMatrix(a) && IsVector(k.s1, L) && IsShortVector(k.s2, K) && IsVector(k.s2, K) && IsVector(y, L)
    requires k.t0 == LowParts(PublicVector(a, k.s1, k.s2))
    requires IsPoly(c) && Weight(c, N) == TAU
    requires z == VectorSum(y, ChallengeTimes(c, k.s1, L), L)
    requires r == VectorDiff(Commitment(a, y), ChallengeTimes(c, k.s2, K), K)
    requires ct0 == ChallengeTimes(c, k.t0, K) && IsVector(ct0, K) && IsVector(r, K)
    requires LowsBelow(r, LOW_BOUND) && NormsBelow(ct0, GAMMA2)
    ensures Recovered(a, z, c, HighParts(PublicVector(a, k.s1, k.s2)), Hints(ct0, r)) == HighPolys(Commitment(a, y))
  {
    assert forall i :: 0 <= i < K ==> |HighParts(PublicVector(a, k.s1, k.s2))[i]| == N && |Hints(ct0, r)[i]| == N;
    hide RowProduct, HatAll, Hat, Unhat, HighPart, LowPart, HighPoly, HintPoly, UseHintPoly, PolySum, PolyDiff,
         NormBelow, LowBelow, IsShort, IsPoly, Weight, Times, Approximate, PublicRow, VectorSum;
    var t := PublicVector(a, k.s1, k.s2);
    var left, right := Recovered(a, z, c, HighParts(t), Hints(ct0, r)), HighPolys(Commitment(a, y));
    forall i | 0 <= i < K
      ensures left[i] == right[i]
    {
      ApproximateExact(a[i], y, k.s1, k.s2[i], c, z);
      SecretProductShort(c, k.s2[i]);
      PolySizes(Hat(c));
      PolySizes(Hat(k.s2[i]));
      assert NormBelow(ct0[i], GAMMA2) && LowBelow(r[i], LOW_BOUND);
      RecoveredPoly(Commitment(a, y)[i], Unhat(Times(Hat(c), Hat(k.s2[i]))), ct0[i]);
    }
    assert left == right;
  }

  /** The parts of a generated key. */
  ghost predicate Generated(sp: Sponges, limit: nat, k: SecretKey, a: seq<seq<seq<int>>>, pk: seq<int>) {
    && |k.rho| == 32 && IsDigits(k.rho, 256) && |k.key| == 32 && k.tr == Hash(sp, pk, 64)
    && ExpandA(sp, k.rho, limit) == Some(a) && IsMatrix(a)
    && IsShortVector(k.s1, L) && IsVector(k.s1, L) && IsShortVector(k.s2, K) && IsVector(k.s2, K)
    && k.t0 == LowParts(PublicVector(a, k.s1, k.s2))
    && pk == PkEncode(k.rho, HighParts(PublicVector(a, k.s1, k.s2)))
  }

  /** A decoded signature with the right parts verifies when the recovered rows hash to its challenge. */
  lemma VerifyUnfolds(sp: Sponges, limit: nat, pk: seq<int>, message: seq<int>, sig: seq<int>, d: Signature,
                      key: PublicKey, a: seq<seq<seq<int>>>, c: seq<int>, w1: seq<seq<int>>)
    requires |pk| == PUBLIC_KEY_LEN && |sig| == SIGNATURE_LEN && IsDigits(sig, 256)
    requires SigDecode(sig) == Some(d) && NormsBelow(d.z, Z_BOUND) && PkDecode(pk) == key
    requires ExpandA(sp, key.rho, limit) == Some(a) && SampleInBall(sp.shake256(d.c), limit) == Some(c)
    requires IsMatrix(a) && IsVector(d.z, L) && IsPoly(c)
    requires |key.t1| == |d.h| == K && forall i :: 0 <= i < K ==> |key.t1[i]| == N && |d.h[i]| == N
    requires w1 == Recovered(a, d.z, c, key.t1, d.h)
    ensures Verify(sp, limit, pk, message, sig)
         == Some(Hash(sp, MessageHash(sp, Hash(sp, pk, 64), message) + Encode4(w1), C_TILDE_LEN) == d.c)
  {
    hide SigDecode, NormsBelow, PkDecode, ExpandA, SampleInBall, IsMatrix, IsVector, IsPoly, Recovered, Hash, MessageHash, Encode4;
  }

  lemma VectorShape(z: seq<seq<int>>, n: nat)
    requires IsVector(z, n)
    ensures |z| == n && forall i :: 0 <= i < n ==> |z[i]| == N
  {
  }

  lemma HintShape(h: seq<seq<int>>)
    requires IsHint(h)
    ensures |h| == K && forall i :: 0 <= i < K ==> |h[i]| == N
  {
  }

  lemma SignedVerifies(sp: Sponges, limit: nat, k: SecretKey, a: seq<seq<seq<int>>>, pk: seq<int>, message: seq<int>,
                       y: seq<seq<int>>, cTilde: seq<int>, c: seq<int>, sig: seq<int>)
    requires Generated(sp, limit, k, a, pk) && IsVector(k.t0, K) && IsVector(y, L) && IsPoly(c)
    requires cTilde == ChallengeHash(sp, MessageHash(sp, k.tr, message), Commitment(a, y))
    requires SampleInBall(sp.shake256(cTilde), limit) == Some(c) && Weight(c, N) == TAU
    requires Respond(k, y, Commitment(a, y), cTilde, c) == Signed(sig)
    ensures |sig| == SIGNATURE_LEN && IsDigits(sig, 256) && Verify(sp, limit, pk, message, sig) == Some(true)
  {
    var t := PublicVector(a, k.s1, k.s2);
    var w := Commitment(a, y);
    assert cTilde == Hash(sp, MessageHash(sp, k.tr, message) + Encode4(HighPolys(w)), C_TILDE_LEN);
    hide *;
    assert |k.rho| == 32 && IsDigits(k.rho, 256) && k.tr == Hash(sp, pk, 64) && ExpandA(sp, k.rho, limit) == Some(a)
        && k.t0 == LowParts(t) && pk == PkEncode(k.rho, HighParts(t)) && IsShortVector(k.s2, K) by {
      GeneratedParts(sp, limit, k, a, pk);
    }
    var z, r, ct0 := AcceptedPass(k, y, w, cTilde, c, sig);
    BoundedResponseFits(z);
    var h := Hints(ct0, r);
    DecodeOfEncode(cTilde, z, h);
    PkRoundTrip(k.rho, HighParts(t));
    VectorShape(HighParts(t), K);
    HintShape(h);
    RecoveredIsCommitment(k, a, y, c, z, r, ct0);
    VerifyUnfolds(sp, limit, pk, message, sig, Signature(cTilde, z, h), PublicKey(k.rho, HighParts(t)), a, c, HighPolys(w));
  }

  lemma GeneratedParts(sp: Sponges, limit: nat, k: SecretKey, a: seq<seq<seq<int>>>, pk: seq<int>)
    requires Generated(sp, limit, k, a, pk)
    ensures |k.rho| == 32 && IsDigits(k.rho, 256) && |k.key| == 32 && k.tr == Hash(sp, pk, 64)
    ensures ExpandA(sp, k.rho, limit) == Some(a) && IsMatrix(a)
    ensures IsVector(k.s1, L) && IsShortVector(k.s2, K) && IsVector(k.s2, K) && IsVector(k.t0, K)
    ensures k.t0 == LowParts(PublicVector(a, k.s1, k.s2)) && pk == PkEncode(k.rho, HighParts(PublicVector(a, k.s1, k.s2)))
  {
  }

  /** Whatever pass the loop stops at, its signature verifies. */
  lemma {:induction false} LoopVerifies(sp: Sponges, limit: nat, k: SecretKey, a: seq<seq<seq<int>>>, pk: seq<int>, message: seq<int>,
                                        rhoPP: seq<int>, kappa: nat, attempts: nat, sig: seq<int>)
    requires Generated(sp, limit, k, a, pk) && IsVector(k.t0, K)
    requires SignFrom(sp, limit, k, a, MessageHash(sp, k.tr, message), rhoPP, kappa, attempts) == Some(sig)
    ensures |sig| == SIGNATURE_LEN && IsDigits(sig, 256) && Verify(sp, limit, pk, message, sig) == Some(true)
    decreases attempts
  {
    hide Verify, Generated, IsVector, IsMatrix, Respond, Mask, Commitment, ChallengeHash, MessageHash, SampleInBall, Weight, IsPoly;
    GeneratedParts(sp, limit, k, a, pk);
    var mu := MessageHash(sp, k.tr, message);
    var y := Mask(sp, rhoPP, kappa);
    var cTilde := ChallengeHash(sp, mu, Commitment(a, y));
    match SignAttempt(sp, limit, k, a, mu, rhoPP, kappa)
    case OutOfBytes =>
    case Retry => LoopVerifies(sp, limit, k, a, pk, message, rhoPP, (kappa + L) % KAPPA_MODULUS, attempts - 1, sig);
    case Signed(_) =>
      var c := SampleInBall(sp.shake256(cTilde), limit).value;
      ChallengeWeight(sp.shake256(cTilde), limit);
      ChallengeIsPoly(sp.shake256(cTilde), limit);
      SignedVerifies(sp, limit, k, a, pk, message, y, cTilde, c, sig);
  }

  lemma LowPartIsLow(t: seq<int>)
    requires IsPoly(t)
    ensures IsLow(LowPart(t))
  {
    hide Power2Round;
    forall j | 0 <= j < N
      ensures 0 <= LowPart(t)[j] < Q && -4096 < Center(LowPart(t)[j]) <= 4096
    {
      Power2RoundExact(t[j]);
      CenterOf(Power2Round(t[j]).1);
    }
  }

  /** Decoding a generated secret key gives the parts it was made from. */
  lemma GeneratedKey(sp: Sponges, limit: nat, seed: seq<int>) returns (k: SecretKey, a: seq<seq<seq<int>>>)
    requires KeypairFromSeed(sp, limit, seed).Some?
    ensures var pair := KeypairFromSeed(sp, limit, seed).value;
      && Generated(sp, limit, k, a, pair.pk) && |pair.sk| == SECRET_KEY_LEN && SkDecode(pair.sk) == k
      && |pair.pk| == PUBLIC_KEY_LEN && IsDigits(pair.pk, 256)
  {
    hide ExpandA, ExpandShort, PublicVector, HighParts, LowParts, IsMatrix, IsVector, IsShortVector, SkEncode, PkEncode, SkDecode;
    var expanded := Hash(sp, seed + [K] + [L], 128);
    var rho, rhoPrime, key := expanded[..32], expanded[32..96], expanded[96..128];
    a := ExpandA(sp, rho, limit).value;
    var s1, s2 := ExpandShort(sp, rhoPrime, L, 0, limit).value, ExpandShort(sp, rhoPrime, K, L, limit).value;
    ExpandAIsMatrix(sp, rho, limit);
    ExpandShortIsShort(sp, rhoPrime, L, 0, limit);
    ExpandShortIsShort(sp, rhoPrime, K, L, limit);
    ShortIsVector(s1, L);
    ShortIsVector(s2, K);
    k := GeneratedFrom(sp, limit, rho, key, a, s1, s2);
  }

  lemma LowPartsInRange(t: seq<seq<int>>)
    requires IsVector(t, K)
    ensures LowInRange(LowParts(t))
  {
    hide IsLow, LowPart, IsPoly;
    forall i | 0 <= i < K
      ensures IsLow(LowParts(t)[i])
    {
      LowPartIsLow(t[i]);
    }
  }

  lemma GeneratedFrom(sp: Sponges, limit: nat, rho: seq<int>, key: seq<int>, a: seq<seq<seq<int>>>,
                      s1: seq<seq<int>>, s2: seq<seq<int>>) returns (k: SecretKey)
    requires |rho| == |key| == 32 && IsDigits(rho, 256) && ExpandA(sp, rho, limit) == Some(a) && IsMatrix(a)
    requires IsShortVector(s1, L) && IsVector(s1, L) && IsShortVector(s2, K) && IsVector(s2, K)
    ensures var pair := EncodeKeys(sp, rho, key, a, s1, s2);
      && Generated(sp, limit, k, a, pair.pk) && |pair.sk| == SECRET_KEY_LEN && SkDecode(pair.sk) == k
      && |pair.pk| == PUBLIC_KEY_LEN && IsDigits(pair.pk, 256)
  {
    hide ExpandA, PublicVector, HighParts, LowParts, IsMatrix, IsVector, IsShortVector, SkEncode, PkEncode, SkDecode, LowInRange;
    var t := PublicVector(a, s1, s2);
    var pk := PkEncode(rho, HighParts(t));
    k := SecretKey(rho, key, Hash(sp, pk, 64), s1, s2, LowParts(t));
    LowPartsInRange(t);
    PkRoundTrip(rho, HighParts(t));
    SkRoundTrip(k);
  }

  predicate Accepted(sp: Sponges, limit: nat, pk: seq<int>, message: seq<int>, sig: seq<int>) {
    |sig| == SIGNATURE_LEN && IsDigits(sig, 256) && Verify(sp, limit, pk, message, sig) == Some(true)
  }

  /**
   Main result: for every seed, every message and every pair of extendable-output
   functions, each signature that signing with a generated secret key returns has the
   fixed length and is accepted under the matching public key.
   */
  lemma SignaturesVerify(sp: Sponges, limit: nat, attempts: nat, seed: seq<int>, message: seq<int>)
    requires KeypairFromSeed(sp, limit, seed).Some?
    ensures |KeypairFromSeed(sp, limit, seed).value.sk| == SECRET_KEY_LEN
    ensures var pair := KeypairFromSeed(sp, limit, seed).value;
      var s := Sign(sp, limit, attempts, pair.sk, message);
      s.Some? ==> Accepted(sp, limit, pair.pk, message, s.value)
  {
    hide KeypairFromSeed, Verify, SkDecode, ExpandA, SignFrom, IsVector, IsMatrix;
    var pair := KeypairFromSeed(sp, limit, seed).value;
    var k, a := GeneratedKey(sp, limit, seed);
    GeneratedParts(sp, limit, k, a, pair.pk);
    var s := Sign(sp, limit, attempts, pair.sk, message);
    if s.Some? {
      var rhoPP := Hash(sp, k.key + Zeros(32) + MessageHash(sp, k.tr, message), 64);
      LoopVerifies(sp, limit, k, a, pair.pk, message, rhoPP, 0, attempts, s.value);
    }
  }
}
