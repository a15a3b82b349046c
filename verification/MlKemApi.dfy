/** The procedures of ML-KEM-768 step by step, against their specifications. */
module MlKemApi {
  import opened Wrappers
  import opened NttLoops
  import opened MlKemNtt
  import opened MlKemCodec
  import opened MlKemVectors
  import opened MlKemPke
  import opened Digits
  import S = MlDsaSampling

  // ---------------------------------------------------------------- polynomials

  method AddPoly(a: seq<int>, b: seq<int>) returns (c: seq<int>)
    requires IsPoly(a) && IsPoly(b)
    ensures c == PolyAdd(a, b)
  {
    c := [];
    for i := 0 to N
      invariant |c| == i && forall j :: 0 <= j < i ==> c[j] == (a[j] + b[j]) % Q
    {
      c := c + [Reduce(a[i] + b[i])];
    }
  }

  method SubPoly(a: seq<int>, b: seq<int>) returns (c: seq<int>)
    requires IsPoly(a) && IsPoly(b)
    ensures c == PolySub(a, b)
  {
    c := [];
    for i := 0 to N
      invariant |c| == i && forall j :: 0 <= j < i ==> c[j] == (a[j] - b[j]) % Q
    {
      c := c + [Reduce(a[i] - b[i])];
    }
  }

  method NttAll(v: seq<seq<int>>) returns (r: seq<seq<int>>)
    requires IsVector(v)
    ensures r == HatAll(v)
  {
    hide NttFun;
    r := [];
    for i := 0 to K
      invariant |r| == i && forall j :: 0 <= j < i ==> r[j] == Hat(v[j])
    {
      var h := MlKemNtt.Ntt(v[i]);
      r := r + [h];
    }
  }

  /** A sum of products in the transformed domain, accumulated from zero. */
  method DotProduct(a: seq<seq<int>>, b: seq<seq<int>>) returns (acc: seq<int>)
    requires IsVector(a) && IsVector(b)
    ensures acc == Dot(a, b)
  {
    hide PairsFun, PolyAdd, Zero;
    acc := Zero();
    for j := 0 to K
      invariant acc == DotUpTo(a, b, j)
    {
      var p := NttMul(a[j], b[j]);
      acc := AddPoly(acc, p);
    }
  }

  // ---------------------------------------------------------------- sampling

  method SampleEntry(sp: Sponges, rho: seq<int>, x: nat, y: nat, limit: nat) returns (e: Option<seq<int>>)
    ensures e == Entry(sp, rho, x, y, limit)
  {
    e := SampleNtt(sp.shake128(rho + [x, y]), limit);
  }

  method BuildRow(sp: Sponges, rho: seq<int>, transposed: bool, i: nat, limit: nat) returns (r: Option<seq<seq<int>>>)
    ensures r == MatrixRow(sp, rho, transposed, i, limit)
  {
    hide Entry;
    var row: seq<seq<int>> := [];
    for j := 0 to K
      invariant |row| == j
      invariant forall k :: 0 <= k < j ==> Some(row[k]) == if transposed then Entry(sp, rho, i, k, limit) else Entry(sp, rho, k, i, limit)
    {
      var e: Option<seq<int>>;
      if transposed {
        e := SampleEntry(sp, rho, i, j, limit);
      } else {
        e := SampleEntry(sp, rho, j, i, limit);
      }
      if e.None? {
        assert j in {0, 1, 2};
        return None;
      }
      row := row + [e.value];
    }
    assert row == [row[0], row[1], row[2]];
    r := Some(row);
  }

  method BuildMatrix(sp: Sponges, rho: seq<int>, transposed: bool, limit: nat) returns (r: Option<seq<seq<seq<int>>>>)
    ensures r == Matrix(sp, rho, transposed, limit)
  {
    hide MatrixRow;
    var a: seq<seq<seq<int>>> := [];
    for i := 0 to K
      invariant |a| == i && forall k :: 0 <= k < i ==> Some(a[k]) == MatrixRow(sp, rho, transposed, k, limit)
    {
      var row := BuildRow(sp, rho, transposed, i, limit);
      if row.None? {
        assert i in {0, 1, 2};
        return None;
      }
      a := a + [row.value];
    }
    assert a == [a[0], a[1], a[2]];
    r := Some(a);
  }

  method SampleSmall(sp: Sponges, s: seq<int>, first: nat) returns (v: seq<seq<int>>)
    ensures v == SmallVector(sp, s, first)
  {
    hide Prf, Cbd;
    v := [];
    for i := 0 to K
      invariant |v| == i && forall k :: 0 <= k < i ==> v[k] == SmallPoly(sp, s, first + k)
    {
      var f := SampleCbd(Prf(sp, s, first + i), ETA);
      v := v + [f];
    }
    assert v == [v[0], v[1], v[2]];
  }

  // ---------------------------------------------------------------- byte vectors

  method EncodeAll(v: seq<seq<int>>, d: nat) returns (b: seq<int>)
    requires 1 <= d <= 12 && IsDigitVector(v, Modulus(d))
    ensures b == EncodeVector(v, d)
  {
    hide ByteEncode, Modulus;
    var e0 := EncodeBits(v[0], d);
    var e1 := EncodeBits(v[1], d);
    var e2 := EncodeBits(v[2], d);
    b := e0 + e1 + e2;
  }

  method DecodeAll(b: seq<int>, d: nat) returns (v: seq<seq<int>>)
    requires 1 <= d <= 12 && IsBytes(b, 96 * d)
    ensures v == DecodeVector(b, d)
  {
    hide ByteDecode;
    var v0 := DecodeBits(b[..32 * d], d);
    var v1 := DecodeBits(b[32 * d..64 * d], d);
    var v2 := DecodeBits(b[64 * d..], d);
    v := [v0, v1, v2];
  }

  // ---------------------------------------------------------------- K-PKE

  method PublicRows(a: seq<seq<seq<int>>>, s: seq<seq<int>>, e: seq<seq<int>>) returns (t: seq<seq<int>>, sh: seq<seq<int>>)
    requires IsMatrix(a) && IsVector(s) && IsVector(e)
    ensures t == PublicVector(a, s, e) && sh == HatAll(s)
  {
    hide Dot, Hat, PolyAdd;
    sh := NttAll(s);
    var eh := NttAll(e);
    t := [];
    for i := 0 to K
      invariant |t| == i && forall k :: 0 <= k < i ==> t[k] == PolyAdd(Dot(a[k], sh), Hat(e[k]))
    {
      var acc := DotProduct(a[i], sh);
      var p := AddPoly(acc, eh[i]);
      t := t + [p];
    }
  }

  method GeneratePke(sp: Sponges, limit: nat, d: seq<int>) returns (r: Option<PkeKeys>)
    ensures r == PkeKeygen(sp, limit, d)
  {
    hide HashPair, Matrix, EncodeVector, PublicVector, HatAll, SmallVector, IsVector, IsMatrix;
    var pair := HashPair(sp, d + [K]);
    var rho, sigma := pair[..32], pair[32..];
    var a := BuildMatrix(sp, rho, false, limit);
    if a.None? {
      return None;
    }
    MatrixShape(sp, rho, false, limit, a.value);
    var s := SampleSmall(sp, sigma, 0);
    var e := SampleSmall(sp, sigma, 3);
    var t, sh := PublicRows(a.value, s, e);
    VectorDigits(t);
    VectorDigits(sh);
    var ek := EncodeAll(t, 12);
    var dk := EncodeAll(sh, 12);
    r := Some(PkeKeys(ek + rho, dk));
  }

  method FirstRows(at: seq<seq<seq<int>>>, r: seq<seq<int>>, e1: seq<seq<int>>) returns (u: seq<seq<int>>, rh: seq<seq<int>>)
    requires IsMatrix(at) && IsVector(r) && IsVector(e1)
    ensures u == FirstPart(at, r, e1) && rh == HatAll(r)
  {
    hide Dot, InvNttFun, PolyAdd;
    rh := NttAll(r);
    u := [];
    for i := 0 to K
      invariant |u| == i && forall k :: 0 <= k < i ==> u[k] == PolyAdd(Unhat(Dot(at[k], rh)), e1[k])
    {
      var acc := DotProduct(at[i], rh);
      var back := InvNtt(acc);
      var p := AddPoly(back, e1[i]);
      u := u + [p];
    }
  }

  method SecondRow(t: seq<seq<int>>, rh: seq<seq<int>>, ghost r: seq<seq<int>>, e2: seq<int>, mu: seq<int>) returns (v: seq<int>)
    requires IsVector(t) && IsVector(r) && IsPoly(e2) && IsPoly(mu) && rh == HatAll(r)
    ensures v == SecondPart(t, r, e2, mu)
  {
    hide Dot, InvNttFun, PolyAdd, HatAll;
    var acc := DotProduct(t, rh);
    var back := InvNtt(acc);
    v := AddPoly(back, e2);
    v := AddPoly(v, mu);
  }

  method Pack(u: seq<seq<int>>, v: seq<int>) returns (ct: seq<int>)
    requires IsVector(u) && IsPoly(v)
    ensures ct == Ciphertext(u, v)
  {
    hide PolyCompress, EncodeVector, ByteEncode;
    SmallModulus();
    var c0 := CompressAll(u[0], DU);
    var c1 := CompressAll(u[1], DU);
    var c2 := CompressAll(u[2], DU);
    var first := EncodeAll([c0, c1, c2], DU);
    var c := CompressAll(v, DV);
    var second := EncodeBits(c, DV);
    ct := first + second;
  }

  method Encrypt(sp: Sponges, limit: nat, ek: seq<int>, m: seq<int>, rand: seq<int>) returns (r: Option<seq<int>>)
    requires IsBytes(ek, 1184) && IsBytes(m, 32)
    ensures r == PkeEncrypt(sp, limit, ek, m, rand)
  {
    hide Matrix, DecodeVector, ByteDecode, FirstPart, SecondPart, HatAll, SmallVector, SmallPoly, IsVector, IsMatrix, Ciphertext;
    var t := DecodeAll(ek[..1152], 12);
    VectorDigits(t);
    var at := BuildMatrix(sp, ek[1152..], true, limit);
    if at.None? {
      return None;
    }
    MatrixShape(sp, ek[1152..], true, limit, at.value);
    var rs := SampleSmall(sp, rand, 0);
    var e1 := SampleSmall(sp, rand, 3);
    var e2 := SampleCbd(Prf(sp, rand, 6), ETA);
    SmallPolyIs(sp, rand, 6);
    var u, rh := FirstRows(at.value, rs, e1);
    SmallModulus();
    var bits := DecodeBits(m, 1);
    var mu := DecompressAll(bits, 1);
    var v := SecondRow(t, rh, rs, e2, mu);
    var ct := Pack(u, v);
    r := Some(ct);
  }

  lemma SmallPolyIs(sp: Sponges, s: seq<int>, b: nat)
    ensures Cbd(Prf(sp, s, b), ETA) == SmallPoly(sp, s, b)
  {
  }

  method Unpack(ct: seq<int>) returns (u: seq<seq<int>>, v: seq<int>)
    requires IsBytes(ct, 1088)
    ensures u == ReceivedFirst(ct) && v == ReceivedSecond(ct)
  {
    hide DecodeVector, ByteDecode, PolyDecompress;
    SmallModulus();
    var d := DecodeAll(ct[..960], DU);
    var u0 := DecompressAll(d[0], DU);
    var u1 := DecompressAll(d[1], DU);
    var u2 := DecompressAll(d[2], DU);
    u := [u0, u1, u2];
    var e := DecodeBits(ct[960..], DV);
    v := DecompressAll(e, DV);
  }

  method Decrypt(dk: seq<int>, ct: seq<int>) returns (m: seq<int>)
    requires IsBytes(dk, 1152) && IsBytes(ct, 1088)
    ensures m == PkeDecrypt(dk, ct)
  {
    hide DecodeVector, ReceivedFirst, ReceivedSecond, Dot, InvNttFun, HatAll, PolySub, PolyCompress, ByteEncode, IsVector;
    var u, v := Unpack(ct);
    var sh := DecodeAll(dk, 12);
    VectorDigits(sh);
    var uh := NttAll(u);
    var acc := DotProduct(sh, uh);
    var back := InvNtt(acc);
    var w := SubPoly(v, back);
    SmallModulus();
    var bits := CompressAll(w, 1);
    m := EncodeBits(bits, 1);
  }

  // ---------------------------------------------------------------- ML-KEM

  method Generate(sp: Sponges, limit: nat, d: seq<int>, z: seq<int>) returns (r: Option<KemKeys>)
    requires IsBytes(z, 32)
    ensures r == KemKeygen(sp, limit, d, z)
  {
    hide PkeKeygen, Hash;
    var keys := GeneratePke(sp, limit, d);
    if keys.None? {
      return None;
    }
    var ek := keys.value.ek;
    r := Some(KemKeys(ek, keys.value.dk + ek + Hash(sp, ek) + z));
  }

  method Encapsulate(sp: Sponges, limit: nat, ek: seq<int>, m: seq<int>) returns (r: Option<Sealed>)
    requires IsBytes(ek, 1184) && IsBytes(m, 32)
    ensures r == Encapsulated(sp, limit, ek, m)
  {
    hide PkeEncrypt, HashPair, Hash;
    var pair := HashPair(sp, m + Hash(sp, ek));
    var ct := Encrypt(sp, limit, ek, m, pair[32..]);
    r := if ct.None? then None else Some(Sealed(ct.value, pair[..32]));
  }

  /** Decryption, re-encryption and comparison; a mismatch is answered from the rejection seed. */
  method Decapsulate(sp: Sponges, limit: nat, dk: seq<int>, ct: seq<int>) returns (r: Option<seq<int>>)
    requires IsBytes(dk, 2400) && IsBytes(ct, 1088)
    ensures r == Decapsulated(sp, limit, dk, ct)
  {
    hide PkeEncrypt, PkeDecrypt, HashPair, Rejection;
    var m := Decrypt(dk[..1152], ct);
    var pair := HashPair(sp, m + dk[2336..2368]);
    var kBar := Rejection(sp, dk[2368..], ct);
    var again := Encrypt(sp, limit, dk[1152..2336], m, pair[32..]);
    r := if again.None? then None else if ct == again.value then Some(pair[..32]) else Some(kBar);
  }
}
