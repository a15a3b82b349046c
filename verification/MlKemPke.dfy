/**
 K-PKE and ML-KEM-768 on bytes: key generation, encryption, decryption, encapsulation and
 decapsulation, with the sponges as parameters, and the round trips they are for.
 */
module MlKemPke {
  import opened Wrappers
  import opened NttSpec
  import opened NttLoops
  import opened MlKemNtt
  import opened MlKemCodec
  import opened MlKemVectors
  import opened Digits
  import S = MlDsaSampling
  import M = Modular

  const ETA: nat := 2

  /** The hash functions: each gives an endless byte stream, of which a prefix is used. */
  datatype Sponges = Sponges(shake128: seq<int> -> S.Stream, shake256: seq<int> -> S.Stream,
                             sha3of256: seq<int> -> S.Stream, sha3of512: seq<int> -> S.Stream)

  predicate IsBytes(b: seq<int>, n: nat) {
    |b| == n && IsDigits(b, 256)
  }

  // ---------------------------------------------------------------- the uniform sampler

  /** Two twelve-bit candidates from every three bytes. */
  function TwelveBits(s: S.Stream, k: nat): int {
    var j := 3 * (k / 2);
    if k % 2 == 0 then s(j) + 256 * (s(j + 1) % 16) else s(j + 1) / 16 + 16 * s(j + 2)
  }

  function NttCandidate(s: S.Stream, k: nat): Option<int> {
    if TwelveBits(s, k) < Q then Some(TwelveBits(s, k)) else None
  }

  function NttCandidates(s: S.Stream): S.Candidates {
    (k: nat) => NttCandidate(s, k)
  }

  /** The first 256 acceptable candidates; None if `limit` triples are not enough. */
  function UniformPoly(s: S.Stream, limit: nat): Option<seq<int>> {
    S.FirstPoly(NttCandidates(s), 2 * limit)
  }

  lemma UniformIsPoly(s: S.Stream, limit: nat)
    requires UniformPoly(s, limit).Some?
    ensures IsPoly(UniformPoly(s, limit).value)
  {
    S.AcceptedAll(NttCandidates(s), 2 * limit, v => 0 <= v < Q);
  }

  function PutCandidate(poly: seq<int>, d: int): seq<int> {
    if d < Q && |poly| < N then poly + [d] else poly
  }

  lemma CappedNext(s: S.Stream, k: nat)
    ensures PutCandidate(S.Capped(S.Accepted(NttCandidates(s), k)), TwelveBits(s, k)) == S.Capped(S.Accepted(NttCandidates(s), k + 1))
  {
    S.AcceptedNext(NttCandidates(s), k, NttCandidate(s, k));
  }

  lemma CappedEnough(cand: S.Candidates, k: nat, limit: nat)
    requires k <= limit
    ensures |S.Capped(S.Accepted(cand, k))| == N ==> S.FirstPoly(cand, limit) == Some(S.Capped(S.Accepted(cand, k)))
    ensures k == limit && |S.Capped(S.Accepted(cand, k))| < N ==> S.FirstPoly(cand, limit) == None
  {
    if |S.Accepted(cand, k)| >= N {
      S.EnoughFound(cand, k, limit);
      assert |S.Accepted(cand, k)| == N ==> S.Accepted(cand, k)[..N] == S.Accepted(cand, k);
    } else if k == limit {
      assert |S.Accepted(cand, limit)| < N;
    }
  }

  method SampleNtt(s: S.Stream, limit: nat) returns (r: Option<seq<int>>)
    ensures r == UniformPoly(s, limit)
  {
    hide S.Accepted, TwelveBits;
    ghost var cand := NttCandidates(s);
    var a: seq<int> := [];
    var t := 0;
    NoneAccepted(cand);
    while |a| < N && t < limit
      invariant t <= limit && a == S.Capped(S.Accepted(cand, 2 * t)) && |a| <= N
    {
      CappedNext(s, 2 * t);
      CappedNext(s, 2 * t + 1);
      Triple(s, t);
      var d1 := s(3 * t) + 256 * (s(3 * t + 1) % 16);
      var d2 := s(3 * t + 1) / 16 + 16 * s(3 * t + 2);
      if d1 < Q {
        a := a + [d1];
      }
      if d2 < Q && |a| < N {
        a := a + [d2];
      }
      t := t + 1;
    }
    CappedEnough(cand, 2 * t, 2 * limit);
    r := if |a| < N then None else Some(a);
  }

  lemma NoneAccepted(cand: S.Candidates)
    ensures S.Capped(S.Accepted(cand, 2 * 0)) == []
  {
  }

  lemma Triple(s: S.Stream, t: nat)
    ensures TwelveBits(s, 2 * t) == s(3 * t) + 256 * (s(3 * t + 1) % 16)
    ensures TwelveBits(s, 2 * t + 1) == s(3 * t + 1) / 16 + 16 * s(3 * t + 2)
  {
    assert (2 * t) / 2 == t && (2 * t + 1) / 2 == t && (2 * t + 1) % 2 == 1;
  }

  // ---------------------------------------------------------------- the matrix and the secrets

  function Entry(sp: Sponges, rho: seq<int>, x: nat, y: nat, limit: nat): Option<seq<int>> {
    UniformPoly(sp.shake128(rho + [x, y]), limit)
  }

  /** Row i; the transposed matrix absorbs the indices in the other order. */
  function MatrixRow(sp: Sponges, rho: seq<int>, transposed: bool, i: nat, limit: nat): Option<seq<seq<int>>> {
    var e0, e1, e2 := if transposed then Entry(sp, rho, i, 0, limit) else Entry(sp, rho, 0, i, limit),
                      if transposed then Entry(sp, rho, i, 1, limit) else Entry(sp, rho, 1, i, limit),
                      if transposed then Entry(sp, rho, i, 2, limit) else Entry(sp, rho, 2, i, limit);
    if e0.None? || e1.None? || e2.None? then None else Some([e0.value, e1.value, e2.value])
  }

  function Matrix(sp: Sponges, rho: seq<int>, transposed: bool, limit: nat): Option<seq<seq<seq<int>>>> {
    var r0, r1, r2 := MatrixRow(sp, rho, transposed, 0, limit), MatrixRow(sp, rho, transposed, 1, limit), MatrixRow(sp, rho, transposed, 2, limit);
    if r0.None? || r1.None? || r2.None? then None else Some([r0.value, r1.value, r2.value])
  }

  lemma RowIsVector(sp: Sponges, rho: seq<int>, transposed: bool, i: nat, limit: nat)
    requires MatrixRow(sp, rho, transposed, i, limit).Some?
    ensures IsVector(MatrixRow(sp, rho, transposed, i, limit).value)
  {
    hide UniformPoly;
    forall x: nat, y: nat | Entry(sp, rho, x, y, limit).Some?
      ensures IsPoly(Entry(sp, rho, x, y, limit).value)
    {
      UniformIsPoly(sp.shake128(rho + [x, y]), limit);
    }
  }

  lemma MatrixIs(sp: Sponges, rho: seq<int>, transposed: bool, limit: nat)
    requires Matrix(sp, rho, transposed, limit).Some?
    ensures IsMatrix(Matrix(sp, rho, transposed, limit).value)
  {
    hide MatrixRow;
    RowIsVector(sp, rho, transposed, 0, limit);
    RowIsVector(sp, rho, transposed, 1, limit);
    RowIsVector(sp, rho, transposed, 2, limit);
  }

  /** Encryption works with the transpose of the matrix of key generation. */
  lemma MatrixTransposed(sp: Sponges, rho: seq<int>, limit: nat)
    requires Matrix(sp, rho, false, limit).Some?
    ensures IsMatrix(Matrix(sp, rho, false, limit).value)
    ensures Matrix(sp, rho, true, limit) == Some(Transposed(Matrix(sp, rho, false, limit).value))
  {
    hide Entry;
    MatrixIs(sp, rho, false, limit);
    var a := Matrix(sp, rho, false, limit).value;
    assert Transposed(a) == [[a[0][0], a[1][0], a[2][0]], [a[0][1], a[1][1], a[2][1]], [a[0][2], a[1][2], a[2][2]]];
  }

  function Prf(sp: Sponges, s: seq<int>, b: nat): (r: seq<int>)
    ensures IsBytes(r, 64 * ETA)
  {
    S.Take(sp.shake256(s + [b]), 64 * ETA)
  }

  function SmallPoly(sp: Sponges, s: seq<int>, b: nat): (f: seq<int>)
    ensures IsPoly(f)
  {
    Cbd(Prf(sp, s, b), ETA)
  }

  function SmallVector(sp: Sponges, s: seq<int>, first: nat): (v: seq<seq<int>>)
    ensures IsVector(v)
  {
    [SmallPoly(sp, s, first), SmallPoly(sp, s, first + 1), SmallPoly(sp, s, first + 2)]
  }

  // ---------------------------------------------------------------- vectors of bytes

  ghost predicate IsDigitVector(v: seq<seq<int>>, base: int) {
    |v| == K && forall i :: 0 <= i < K ==> |v[i]| == N && IsDigits(v[i], base)
  }

  function EncodeVector(v: seq<seq<int>>, d: nat): (b: seq<int>)
    requires |v| == K && forall i :: 0 <= i < K ==> |v[i]| == N
    ensures IsBytes(b, 96 * d)
  {
    ByteEncode(v[0], d) + ByteEncode(v[1], d) + ByteEncode(v[2], d)
  }

  function DecodeVector(b: seq<int>, d: nat): (v: seq<seq<int>>)
    requires 1 <= d <= 12 && |b| == 96 * d
    ensures IsDigitVector(v, Modulus(d))
  {
    [ByteDecode(b[..32 * d], d), ByteDecode(b[32 * d..64 * d], d), ByteDecode(b[64 * d..], d)]
  }

  lemma DecodeOfEncodeVector(v: seq<seq<int>>, d: nat)
    requires 1 <= d <= 12 && IsDigitVector(v, Modulus(d))
    ensures DecodeVector(EncodeVector(v, d), d) == v
  {
    hide ByteEncode, ByteDecode;
    var b := EncodeVector(v, d);
    assert b[..32 * d] == ByteEncode(v[0], d) && b[32 * d..64 * d] == ByteEncode(v[1], d) && b[64 * d..] == ByteEncode(v[2], d);
    DecodeOfEncode(v[0], d);
    DecodeOfEncode(v[1], d);
    DecodeOfEncode(v[2], d);
  }

  lemma VectorDigits(v: seq<seq<int>>)
    ensures IsVector(v) <==> IsDigitVector(v, Modulus(12))
  {
  }

  function CompressVector(v: seq<seq<int>>, d: nat): (r: seq<seq<int>>)
    requires IsVector(v) && 1 <= d <= 11
    ensures IsDigitVector(r, Modulus(d))
  {
    [PolyCompress(v[0], d), PolyCompress(v[1], d), PolyCompress(v[2], d)]
  }

  function DecompressVector(v: seq<seq<int>>, d: nat): (r: seq<seq<int>>)
    requires 1 <= d <= 11 && IsDigitVector(v, Modulus(d))
    ensures IsVector(r)
  {
    [PolyDecompress(v[0], d), PolyDecompress(v[1], d), PolyDecompress(v[2], d)]
  }

  // ---------------------------------------------------------------- K-PKE

  datatype PkeKeys = PkeKeys(ek: seq<int>, dk: seq<int>)

  function HashPair(sp: Sponges, input: seq<int>): (r: seq<int>)
    ensures IsBytes(r, 64)
  {
    S.Take(sp.sha3of512(input), 64)
  }

  /** The public seed and the secret seed. */
  function RhoOf(sp: Sponges, d: seq<int>): (r: seq<int>)
    ensures IsBytes(r, 32)
  {
    HashPair(sp, d + [K])[..32]
  }

  function SigmaOf(sp: Sponges, d: seq<int>): (r: seq<int>)
    ensures IsBytes(r, 32)
  {
    HashPair(sp, d + [K])[32..]
  }

  function PublicOf(sp: Sponges, a: seq<seq<seq<int>>>, sigma: seq<int>): (t: seq<seq<int>>)
    requires IsMatrix(a)
    ensures IsVector(t)
  {
    PublicVector(a, SmallVector(sp, sigma, 0), SmallVector(sp, sigma, 3))
  }

  function PkeKeygen(sp: Sponges, limit: nat, d: seq<int>): (r: Option<PkeKeys>)
    ensures r.Some? ==> IsBytes(r.value.ek, 1184) && IsBytes(r.value.dk, 1152)
  {
    match Matrix(sp, RhoOf(sp, d), false, limit)
    case None => None
    case Some(a) =>
      MatrixShape(sp, RhoOf(sp, d), false, limit, a);
      Some(PkeKeys(EncodeVector(PublicOf(sp, a, SigmaOf(sp, d)), 12) + RhoOf(sp, d), EncodeVector(HatAll(SmallVector(sp, SigmaOf(sp, d), 0)), 12)))
  }

  lemma MatrixShape(sp: Sponges, rho: seq<int>, transposed: bool, limit: nat, a: seq<seq<seq<int>>>)
    requires Matrix(sp, rho, transposed, limit) == Some(a)
    ensures IsMatrix(a)
  {
    MatrixIs(sp, rho, transposed, limit);
  }

  /** One bit of the message per coefficient: 0 or about q/2. */
  function MessagePoly(m: seq<int>): (mu: seq<int>)
    requires IsBytes(m, 32)
    ensures IsPoly(mu)
  {
    PolyDecompress(ByteDecode(m, 1), 1)
  }

  function FirstOf(sp: Sponges, at: seq<seq<seq<int>>>, rand: seq<int>): (u: seq<seq<int>>)
    requires IsMatrix(at)
    ensures IsVector(u)
  {
    FirstPart(at, SmallVector(sp, rand, 0), SmallVector(sp, rand, 3))
  }

  function SecondOf(sp: Sponges, t: seq<seq<int>>, m: seq<int>, rand: seq<int>): (v: seq<int>)
    requires IsVector(t) && IsBytes(m, 32)
    ensures IsPoly(v)
  {
    SecondPart(t, SmallVector(sp, rand, 0), SmallPoly(sp, rand, 6), MessagePoly(m))
  }

  function Ciphertext(u: seq<seq<int>>, v: seq<int>): (ct: seq<int>)
    requires IsVector(u) && IsPoly(v)
    ensures IsBytes(ct, 1088)
  {
    EncodeVector(CompressVector(u, DU), DU) + ByteEncode(PolyCompress(v, DV), DV)
  }

  function PublicPart(ek: seq<int>): (t: seq<seq<int>>)
    requires IsBytes(ek, 1184)
    ensures IsVector(t)
  {
    VectorDigits(DecodeVector(ek[..1152], 12));
    DecodeVector(ek[..1152], 12)
  }

  function PkeEncrypt(sp: Sponges, limit: nat, ek: seq<int>, m: seq<int>, rand: seq<int>): (r: Option<seq<int>>)
    requires IsBytes(ek, 1184) && IsBytes(m, 32)
    ensures r.Some? ==> IsBytes(r.value, 1088)
  {
    match Matrix(sp, ek[1152..], true, limit)
    case None => None
    case Some(at) =>
      MatrixShape(sp, ek[1152..], true, limit, at);
      Some(Ciphertext(FirstOf(sp, at, rand), SecondOf(sp, PublicPart(ek), m, rand)))
  }

  /** What a ciphertext gives back of its two parts. */
  function ReceivedFirst(ct: seq<int>): (u: seq<seq<int>>)
    requires IsBytes(ct, 1088)
    ensures IsVector(u)
  {
    DecompressVector(DecodeVector(ct[..960], DU), DU)
  }

  function ReceivedSecond(ct: seq<int>): (v: seq<int>)
    requires IsBytes(ct, 1088)
    ensures IsPoly(v)
  {
    PolyDecompress(ByteDecode(ct[960..], DV), DV)
  }

  function SecretPart(dk: seq<int>): (s: seq<seq<int>>)
    requires IsBytes(dk, 1152)
    ensures IsVector(s)
  {
    VectorDigits(DecodeVector(dk, 12));
    DecodeVector(dk, 12)
  }

  function MessageOf(w: seq<int>): (m: seq<int>)
    requires IsPoly(w)
    ensures IsBytes(m, 32)
  {
    ByteEncode(PolyCompress(w, 1), 1)
  }

  function PkeDecrypt(dk: seq<int>, ct: seq<int>): (m: seq<int>)
    requires IsBytes(dk, 1152) && IsBytes(ct, 1088)
    ensures IsBytes(m, 32)
  {
    MessageOf(Opened(SecretPart(dk), ReceivedFirst(ct), ReceivedSecond(ct)))
  }

  // ---------------------------------------------------------------- what a ciphertext keeps

  lemma CiphertextParts(u: seq<seq<int>>, v: seq<int>)
    requires IsVector(u) && IsPoly(v)
    ensures ReceivedFirst(Ciphertext(u, v)) == DecompressVector(CompressVector(u, DU), DU)
    ensures ReceivedSecond(Ciphertext(u, v)) == PolyDecompress(PolyCompress(v, DV), DV)
  {
    hide ByteEncode, ByteDecode, EncodeVector, DecodeVector, PolyCompress, PolyDecompress, CompressVector, DecompressVector;
    var ct := Ciphertext(u, v);
    assert ct[..960] == EncodeVector(CompressVector(u, DU), DU) && ct[960..] == ByteEncode(PolyCompress(v, DV), DV);
    DecodeOfEncodeVector(CompressVector(u, DU), DU);
    SmallModulus();
    DecodeOfEncode(PolyCompress(v, DV), DV);
  }

  lemma SmallModulus()
    ensures Modulus(DV) == Pow(2, DV) && Modulus(DU) == Pow(2, DU) && Modulus(1) == Pow(2, 1) == 2
  {
    Widths(1);
  }

  /** The rounding error of a polynomial. */
  function RoundingError(f: seq<int>, d: nat): (c: seq<int>)
    requires IsPoly(f) && 1 <= d <= 11
    ensures IsPoly(c)
  {
    PolySub(PolyDecompress(PolyCompress(f, d), d), f)
  }

  function RoundingErrors(u: seq<seq<int>>): (c: seq<seq<int>>)
    requires IsVector(u)
    ensures IsVector(c)
  {
    [RoundingError(u[0], DU), RoundingError(u[1], DU), RoundingError(u[2], DU)]
  }

  /** At most round(q / 2^(d+1)): 2 for the first part and 104 for the second. */
  lemma RoundingSmall(f: seq<int>, d: nat, i: nat)
    requires IsPoly(f) && 1 <= d <= 11 && i < N
    ensures -ErrorBound(d) <= Center(RoundingError(f, d)[i]) <= ErrorBound(d)
    ensures ErrorBound(DU) == 2 && ErrorBound(DV) == 104
  {
    hide Compress, Decompress;
    DecompressOfCompress(f[i], d);
    Widths(DU);
    Widths(DV);
  }

  lemma SubThenAdd(a: seq<int>, b: seq<int>)
    requires IsPoly(a) && IsPoly(b)
    ensures PolyAdd(a, PolySub(b, a)) == b
  {
    forall i | 0 <= i < N
      ensures PolyAdd(a, PolySub(b, a))[i] == b[i]
    {
      M.Reduce(b[i] - a[i], Q);
      M.Add(a[i], a[i], (b[i] - a[i]) % Q, b[i] - a[i], Q);
      M.Small(b[i], Q);
    }
  }

  lemma ReceivedIsShifted(u: seq<seq<int>>, v: seq<int>)
    requires IsVector(u) && IsPoly(v)
    ensures ReceivedFirst(Ciphertext(u, v)) == Shifted(u, RoundingErrors(u))
    ensures ReceivedSecond(Ciphertext(u, v)) == PolyAdd(v, RoundingError(v, DV))
  {
    hide Ciphertext, ReceivedFirst, ReceivedSecond, PolyCompress, PolyDecompress, PolyAdd, PolySub;
    CiphertextParts(u, v);
    SubThenAdd(v, PolyDecompress(PolyCompress(v, DV), DV));
    forall i | 0 <= i < K
      ensures PolyAdd(u[i], RoundingError(u[i], DU)) == PolyDecompress(PolyCompress(u[i], DU), DU)
    {
      SubThenAdd(u[i], PolyDecompress(PolyCompress(u[i], DU), DU));
    }
    assert DecompressVector(CompressVector(u, DU), DU) == Shifted(u, RoundingErrors(u));
  }

  // ---------------------------------------------------------------- the noise of a run

  /** The noise of encrypting m with this randomness under the key of this seed. */
  function RunNoise(sp: Sponges, a: seq<seq<seq<int>>>, sigma: seq<int>, m: seq<int>, rand: seq<int>): (n: seq<int>)
    requires IsMatrix(a) && IsBytes(m, 32)
    ensures IsPoly(n)
  {
    var u, v := FirstOf(sp, Transposed(a), rand), SecondOf(sp, PublicOf(sp, a, sigma), m, rand);
    Noise(SmallVector(sp, sigma, 0), SmallVector(sp, sigma, 3), SmallVector(sp, rand, 0),
          Shifted(SmallVector(sp, rand, 3), RoundingErrors(u)), SmallPoly(sp, rand, 6), RoundingError(v, DV))
  }

  /** The window in which a bit is read back. */
  predicate InWindow(bit: int, noise: int)
    requires 0 <= noise < Q
  {
    -832 <= Center(noise) <= (if bit == 0 then 832 else 831)
  }

  ghost predicate Readable(m: seq<int>, noise: seq<int>)
    requires IsBytes(m, 32) && IsPoly(noise)
  {
    forall i :: 0 <= i < N ==> InWindow(ByteDecode(m, 1)[i], noise[i])
  }

  /** The message bits are read back exactly where the noise is in the window. */
  lemma NoisyBit(m: seq<int>, noise: seq<int>, i: nat)
    requires IsBytes(m, 32) && IsPoly(noise) && i < N
    ensures PolyCompress(PolyAdd(MessagePoly(m), noise), 1)[i] == ByteDecode(m, 1)[i] <==> InWindow(ByteDecode(m, 1)[i], noise[i])
  {
    hide ByteDecode, Compress, Decompress;
    SmallModulus();
    var bit := ByteDecode(m, 1)[i];
    BitRecovered(bit, Center(noise[i]));
    CongruentSum(Decompress(bit, 1), noise[i], Center(noise[i]));
  }

  lemma CongruentSum(x: int, y: int, z: int)
    requires z == y || z == y - Q
    ensures (x + y) % Q == (x + z) % Q
  {
    if z == y - Q {
      M.Multiple(x + z, x + y, -1, Q);
    }
  }

  lemma NoisyMessage(m: seq<int>, noise: seq<int>)
    requires IsBytes(m, 32) && IsPoly(noise)
    ensures MessageOf(PolyAdd(MessagePoly(m), noise)) == m <==> Readable(m, noise)
  {
    hide ByteDecode, ByteEncode, PolyCompress, PolyAdd, MessagePoly, InWindow;
    var bits, got := ByteDecode(m, 1), PolyCompress(PolyAdd(MessagePoly(m), noise), 1);
    SmallModulus();
    EncodeOfDecode(m, 1);
    DecodeOfEncode(got, 1);
    forall i | 0 <= i < N
      ensures got[i] == bits[i] <==> InWindow(bits[i], noise[i])
    {
      NoisyBit(m, noise, i);
    }
    assert got == bits <==> forall i :: 0 <= i < N ==> got[i] == bits[i];
  }

  lemma KeyParts(sp: Sponges, a: seq<seq<seq<int>>>, sigma: seq<int>, rho: seq<int>)
    requires IsMatrix(a) && IsBytes(rho, 32)
    ensures var ek := EncodeVector(PublicOf(sp, a, sigma), 12) + rho;
      IsBytes(ek, 1184) && ek[1152..] == rho && PublicPart(ek) == PublicOf(sp, a, sigma)
    ensures SecretPart(EncodeVector(HatAll(SmallVector(sp, sigma, 0)), 12)) == HatAll(SmallVector(sp, sigma, 0))
  {
    hide EncodeVector, DecodeVector, PublicOf, HatAll, SmallVector;
    var t, s := PublicOf(sp, a, sigma), HatAll(SmallVector(sp, sigma, 0));
    var ek := EncodeVector(t, 12) + rho;
    VectorDigits(t);
    VectorDigits(s);
    assert ek[..1152] == EncodeVector(t, 12) && ek[1152..] == rho;
    DecodeOfEncodeVector(t, 12);
    DecodeOfEncodeVector(s, 12);
  }

  /** Decrypting on the polynomials of one run. */
  lemma RunOpened(sp: Sponges, a: seq<seq<seq<int>>>, sigma: seq<int>, m: seq<int>, rand: seq<int>)
    requires IsMatrix(a) && IsBytes(m, 32)
    ensures var u, v := FirstOf(sp, Transposed(a), rand), SecondOf(sp, PublicOf(sp, a, sigma), m, rand);
      var ct := Ciphertext(u, v);
      Opened(HatAll(SmallVector(sp, sigma, 0)), ReceivedFirst(ct), ReceivedSecond(ct)) == PolyAdd(MessagePoly(m), RunNoise(sp, a, sigma, m, rand))
  {
    hide Ciphertext, ReceivedFirst, ReceivedSecond, RoundingErrors, RoundingError, SmallVector, SmallPoly, MessagePoly,
         Opened, HatAll, PublicVector, FirstPart, SecondPart, Noise, Shifted, PolyAdd, Transposed;
    var u, v := FirstOf(sp, Transposed(a), rand), SecondOf(sp, PublicOf(sp, a, sigma), m, rand);
    ReceivedIsShifted(u, v);
    OpenedIsNoisy(a, SmallVector(sp, sigma, 0), SmallVector(sp, sigma, 3), SmallVector(sp, rand, 0), SmallVector(sp, rand, 3),
                  SmallPoly(sp, rand, 6), MessagePoly(m), RoundingErrors(u), RoundingError(v, DV));
  }

  /**
   For every seed, message and randomness: decryption returns the message exactly when every
   coefficient of the run's noise is in the window of its bit.
   */
  lemma DecryptExact(sp: Sponges, limit: nat, d: seq<int>, m: seq<int>, rand: seq<int>)
    requires IsBytes(m, 32) && PkeKeygen(sp, limit, d).Some?
    ensures Matrix(sp, RhoOf(sp, d), false, limit).Some? && IsMatrix(Matrix(sp, RhoOf(sp, d), false, limit).value)
    ensures PkeEncrypt(sp, limit, PkeKeygen(sp, limit, d).value.ek, m, rand).Some?
    ensures var keys := PkeKeygen(sp, limit, d).value;
      var ct := PkeEncrypt(sp, limit, keys.ek, m, rand).value;
      var noise := RunNoise(sp, Matrix(sp, RhoOf(sp, d), false, limit).value, SigmaOf(sp, d), m, rand);
      PkeDecrypt(keys.dk, ct) == m <==> Readable(m, noise)
  {
    hide RhoOf, SigmaOf, Matrix, PublicPart, SecretPart, PublicOf, HatAll, SmallVector, FirstOf, SecondOf, Ciphertext, ReceivedFirst,
         ReceivedSecond, MessageOf, Opened, RunNoise, Readable, MessagePoly, PolyAdd, EncodeVector, Transposed, IsMatrix;
    MatrixTransposed(sp, RhoOf(sp, d), limit);
    var a := Matrix(sp, RhoOf(sp, d), false, limit).value;
    KeyParts(sp, a, SigmaOf(sp, d), RhoOf(sp, d));
    RunOpened(sp, a, SigmaOf(sp, d), m, rand);
    NoisyMessage(m, RunNoise(sp, a, SigmaOf(sp, d), m, rand));
  }

  /** The noise is below 832 in every coefficient. */
  ghost predicate QuietRun(sp: Sponges, limit: nat, d: seq<int>, m: seq<int>, rand: seq<int>)
    requires IsBytes(m, 32)
  {
    var a := Matrix(sp, RhoOf(sp, d), false, limit);
    a.Some? && IsMatrix(a.value) && forall i :: 0 <= i < N ==> -832 < Center(RunNoise(sp, a.value, SigmaOf(sp, d), m, rand)[i]) < 832
  }

  lemma QuietDecrypts(sp: Sponges, limit: nat, d: seq<int>, m: seq<int>, rand: seq<int>)
    requires IsBytes(m, 32) && PkeKeygen(sp, limit, d).Some? && QuietRun(sp, limit, d, m, rand)
    ensures PkeEncrypt(sp, limit, PkeKeygen(sp, limit, d).value.ek, m, rand).Some?
    ensures PkeDecrypt(PkeKeygen(sp, limit, d).value.dk, PkeEncrypt(sp, limit, PkeKeygen(sp, limit, d).value.ek, m, rand).value) == m
  {
    hide RhoOf, SigmaOf, Matrix, RunNoise, PkeKeygen, PkeEncrypt, PkeDecrypt, ByteDecode, IsMatrix;
    DecryptExact(sp, limit, d, m, rand);
  }

  /** Sums of small residues are small. */
  lemma CenterSum(a: int, b: int, sign: int)
    requires 0 <= a < Q && 0 <= b < Q && (sign == 1 || sign == -1) && -1664 <= Center(a) + sign * Center(b) <= 1664
    ensures Center((a + sign * b) % Q) == Center(a) + sign * Center(b)
  {
    var x := Center(a) + sign * Center(b);
    var k := (a + sign * b - x) / Q;
    assert a + sign * b == x || a + sign * b == x + Q || a + sign * b == x + 2 * Q || a + sign * b == x - Q;
  }

  /** The two products of the noise of a run stay below 726 in every coefficient. */
  ghost predicate QuietProducts(sp: Sponges, a: seq<seq<seq<int>>>, sigma: seq<int>, rand: seq<int>)
    requires IsMatrix(a)
  {
    forall i :: 0 <= i < N ==> QuietAt(ConvolveAll(SmallVector(sp, sigma, 3), SmallVector(sp, rand, 0))[i],
                                       ConvolveAll(SmallVector(sp, sigma, 0), ReceivedNoise(sp, a, rand))[i])
  }

  /** The sampled noise of the first part with its rounding error. */
  function ReceivedNoise(sp: Sponges, a: seq<seq<seq<int>>>, rand: seq<int>): (g: seq<seq<int>>)
    requires IsMatrix(a)
    ensures IsVector(g)
  {
    Shifted(SmallVector(sp, rand, 3), RoundingErrors(FirstOf(sp, Transposed(a), rand)))
  }

  predicate QuietAt(x: int, y: int)
    requires 0 <= x < Q && 0 <= y < Q
  {
    -725 <= Center(x) - Center(y) <= 725 && -725 <= Center(x) <= 725
  }

  /** A coefficient of the noise: what is left of the window after sampling and rounding, 2 + 104. */
  lemma NoiseAt(x: int, y: int, e2: int, cv: int)
    requires 0 <= x < Q && 0 <= y < Q && 0 <= e2 < Q && 0 <= cv < Q && QuietAt(x, y)
    requires -2 <= Center(e2) <= 2 && -104 <= Center(cv) <= 104
    ensures -832 < Center((((x + e2) % Q + cv) % Q - y) % Q) < 832
  {
    hide Center;
    var p := (x + e2) % Q;
    var r := (p + cv) % Q;
    CenterSum(x, e2, 1);
    CenterSum(p, cv, 1);
    CenterSum(r, y, -1);
    assert r + -1 * y == r - y;
  }

  lemma NoiseEntry(s: seq<seq<int>>, e: seq<seq<int>>, r: seq<seq<int>>, g: seq<seq<int>>, e2: seq<int>, cv: seq<int>, i: nat)
    requires IsVector(s) && IsVector(e) && IsVector(r) && IsVector(g) && IsPoly(e2) && IsPoly(cv) && i < N
    requires QuietAt(ConvolveAll(e, r)[i], ConvolveAll(s, g)[i])
    requires -2 <= Center(e2[i]) <= 2 && -104 <= Center(cv[i]) <= 104
    ensures -832 < Center(Noise(s, e, r, g, e2, cv)[i]) < 832
  {
    hide ConvolveAll, QuietAt, Center;
    NoiseAt(ConvolveAll(e, r)[i], ConvolveAll(s, g)[i], e2[i], cv[i]);
  }

  lemma QuietRunAt(sp: Sponges, a: seq<seq<seq<int>>>, sigma: seq<int>, m: seq<int>, rand: seq<int>, i: nat)
    requires IsMatrix(a) && IsBytes(m, 32) && i < N && QuietProducts(sp, a, sigma, rand)
    ensures -832 < Center(RunNoise(sp, a, sigma, m, rand)[i]) < 832
  {
    var v := SecondOf(sp, PublicOf(sp, a, sigma), m, rand);
    SecondNoiseSmall(sp, rand, i);
    hide IsMatrix, ConvolveAll, SmallVector, SmallPoly, SecondOf, RoundingError, Shifted, FirstOf, QuietAt, Transposed, PublicOf, Noise, Center;
    RoundingSmall(v, DV, i);
    NoiseEntry(SmallVector(sp, sigma, 0), SmallVector(sp, sigma, 3), SmallVector(sp, rand, 0), ReceivedNoise(sp, a, rand),
               SmallPoly(sp, rand, 6), RoundingError(v, DV), i);
  }

  lemma SecondNoiseSmall(sp: Sponges, rand: seq<int>, i: nat)
    requires i < N
    ensures -2 <= Center(SmallPoly(sp, rand, 6)[i]) <= 2
  {
    hide Cbd, Prf, Center;
    CbdSmall(Prf(sp, rand, 6), ETA, i);
  }

  /** Only the products can spoil a run: the rest of its noise is bounded by sampling and rounding. */
  lemma QuietProductsSuffice(sp: Sponges, limit: nat, d: seq<int>, m: seq<int>, rand: seq<int>)
    requires IsBytes(m, 32) && PkeKeygen(sp, limit, d).Some?
    requires Matrix(sp, RhoOf(sp, d), false, limit).Some? && IsMatrix(Matrix(sp, RhoOf(sp, d), false, limit).value)
    requires QuietProducts(sp, Matrix(sp, RhoOf(sp, d), false, limit).value, SigmaOf(sp, d), rand)
    ensures QuietRun(sp, limit, d, m, rand)
  {
    var a, sigma := Matrix(sp, RhoOf(sp, d), false, limit).value, SigmaOf(sp, d);
    hide Matrix, RhoOf, SigmaOf, IsMatrix, PkeKeygen, RunNoise, QuietAt;
    forall i | 0 <= i < N
      ensures -832 < Center(RunNoise(sp, a, sigma, m, rand)[i]) < 832
    {
      QuietRunAt(sp, a, sigma, m, rand, i);
    }
  }


  // ---------------------------------------------------------------- ML-KEM

  datatype KemKeys = KemKeys(ek: seq<int>, dk: seq<int>)

  datatype Sealed = Sealed(ct: seq<int>, secret: seq<int>)

  function Hash(sp: Sponges, input: seq<int>): (r: seq<int>)
    ensures IsBytes(r, 32)
  {
    S.Take(sp.sha3of256(input), 32)
  }

  function Join(a: seq<int>, n: nat, b: seq<int>, k: nat): (r: seq<int>)
    requires IsBytes(a, n) && IsBytes(b, k)
    ensures IsBytes(r, n + k) && r[..n] == a && r[n..] == b
  {
    a + b
  }

  /** The four parts of a decapsulation key. */
  function PkeKeyOf(dk: seq<int>): (r: seq<int>)
    requires IsBytes(dk, 2400)
    ensures IsBytes(r, 1152)
  {
    dk[..1152]
  }

  function PublicKeyOf(dk: seq<int>): (r: seq<int>)
    requires IsBytes(dk, 2400)
    ensures IsBytes(r, 1184)
  {
    dk[1152..2336]
  }

  function KeyHashOf(dk: seq<int>): (r: seq<int>)
    requires IsBytes(dk, 2400)
    ensures IsBytes(r, 32)
  {
    dk[2336..2368]
  }

  function RejectionSeedOf(dk: seq<int>): (r: seq<int>)
    requires IsBytes(dk, 2400)
    ensures IsBytes(r, 32)
  {
    dk[2368..]
  }

  function KemKeygen(sp: Sponges, limit: nat, d: seq<int>, z: seq<int>): (r: Option<KemKeys>)
    requires IsBytes(z, 32)
    ensures r.Some? ==> IsBytes(r.value.ek, 1184) && IsBytes(r.value.dk, 2400)
  {
    match PkeKeygen(sp, limit, d)
    case None => None
    case Some(keys) => Some(KemKeys(keys.ek, Join(Join(Join(keys.dk, 1152, keys.ek, 1184), 2336, Hash(sp, keys.ek), 32), 2368, z, 32)))
  }

  function Encapsulated(sp: Sponges, limit: nat, ek: seq<int>, m: seq<int>): Option<Sealed>
    requires IsBytes(ek, 1184) && IsBytes(m, 32)
  {
    var pair := HashPair(sp, m + Hash(sp, ek));
    match PkeEncrypt(sp, limit, ek, m, pair[32..])
    case None => None
    case Some(ct) => Some(Sealed(ct, pair[..32]))
  }

  /** The answer to a ciphertext that re-encryption does not reproduce. */
  function Rejection(sp: Sponges, z: seq<int>, ct: seq<int>): (r: seq<int>)
    ensures IsBytes(r, 32)
  {
    S.Take(sp.shake256(z + ct), 32)
  }

  function Decapsulated(sp: Sponges, limit: nat, dk: seq<int>, ct: seq<int>): Option<seq<int>>
    requires IsBytes(dk, 2400) && IsBytes(ct, 1088)
  {
    var m := PkeDecrypt(PkeKeyOf(dk), ct);
    var pair := HashPair(sp, m + KeyHashOf(dk));
    match PkeEncrypt(sp, limit, PublicKeyOf(dk), m, pair[32..])
    case None => None
    case Some(again) => Some(if ct == again then pair[..32] else Rejection(sp, RejectionSeedOf(dk), ct))
  }

  lemma DecapsulationKeyParts(sp: Sponges, limit: nat, d: seq<int>, z: seq<int>)
    requires IsBytes(z, 32) && KemKeygen(sp, limit, d, z).Some?
    ensures PkeKeygen(sp, limit, d).Some?
    ensures var dk, keys := KemKeygen(sp, limit, d, z).value.dk, PkeKeygen(sp, limit, d).value;
      PkeKeyOf(dk) == keys.dk && PublicKeyOf(dk) == keys.ek && KeyHashOf(dk) == Hash(sp, keys.ek) && RejectionSeedOf(dk) == z
  {
    hide PkeKeygen, Hash, Join;
    var keys := PkeKeygen(sp, limit, d).value;
    var a := Join(keys.dk, 1152, keys.ek, 1184);
    var b := Join(a, 2336, Hash(sp, keys.ek), 32);
    var dk := Join(b, 2368, z, 32);
    assert dk[..1152] == dk[..2368][..2336][..1152];
    assert dk[1152..2336] == dk[..2368][..2336][1152..];
    assert dk[2336..2368] == dk[..2368][2336..];
  }

  /** Decapsulation returns the encapsulated secret, in every run whose noise stays below 832. */
  lemma DecapsulateExact(sp: Sponges, limit: nat, d: seq<int>, z: seq<int>, m: seq<int>)
    requires IsBytes(z, 32) && IsBytes(m, 32) && KemKeygen(sp, limit, d, z).Some?
    requires QuietRun(sp, limit, d, m, HashPair(sp, m + Hash(sp, KemKeygen(sp, limit, d, z).value.ek))[32..])
    ensures var keys := KemKeygen(sp, limit, d, z).value;
      var sealed := Encapsulated(sp, limit, keys.ek, m);
      sealed.Some? && IsBytes(sealed.value.ct, 1088) && Decapsulated(sp, limit, keys.dk, sealed.value.ct) == Some(sealed.value.secret)
  {
    hide PkeKeygen, PkeEncrypt, PkeDecrypt, QuietRun, HashPair, Hash, Rejection;
    DecapsulationKeyParts(sp, limit, d, z);
    var ek := PkeKeygen(sp, limit, d).value.ek;
    QuietDecrypts(sp, limit, d, m, HashPair(sp, m + Hash(sp, ek))[32..]);
  }

  /** Implicit rejection: a ciphertext that no message encrypts to is answered by the rejection value. */
  lemma RejectedUnlessHonest(sp: Sponges, limit: nat, dk: seq<int>, ct: seq<int>)
    requires IsBytes(dk, 2400) && IsBytes(ct, 1088) && Decapsulated(sp, limit, dk, ct).Some?
    requires forall m: seq<int> :: IsBytes(m, 32) ==> PkeEncrypt(sp, limit, PublicKeyOf(dk), m, HashPair(sp, m + KeyHashOf(dk))[32..]) != Some(ct)
    ensures Decapsulated(sp, limit, dk, ct) == Some(Rejection(sp, RejectionSeedOf(dk), ct))
  {
    hide PkeEncrypt, PkeDecrypt, HashPair, Rejection, IsBytes, PkeKeyOf, KeyHashOf, PublicKeyOf;
    assert IsBytes(PkeDecrypt(PkeKeyOf(dk), ct), 32);
  }
}
