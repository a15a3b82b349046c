/** Compression, the bit codecs and the samplers of ML-KEM-768 (sections 4.2.1 and 4.2.2 of FIPS 203). */
module MlKemCodec {
  import opened Wrappers
  import opened NttSpec
  import opened NttLoops
  import opened MlKemNtt
  import opened Digits
  import BitPacking
  import M = Modular

  const DU: nat := 10
  const DV: nat := 4

  predicate IsPoly(f: seq<int>) {
    |f| == N && Reduced(f, Q)
  }

  /** The representative between -1664 and 1664. */
  function Center(x: int): (r: int)
    requires 0 <= x < Q
    ensures -1664 <= r <= 1664 && (r == x || r == x - Q)
  {
    if x <= 1664 then x else x - Q
  }

  // ---------------------------------------------------------------- compression

  /** Unsigned 32-bit range. */
  predicate FitsU32(x: int) {
    0 <= x < 0x1_0000_0000
  }

  lemma Widths(d: nat)
    requires 1 <= d <= 11
    ensures Pow(2, d) in {2, 4, 8, 16, 32, 64, 128, 256, 512, 1024, 2048}
    ensures (d == 1 ==> Pow(2, d) == 2) && (d == DV ==> Pow(2, d) == 16) && (d == DU ==> Pow(2, d) == 1024)
  {
    assert d in {1, 2, 3, 4, 5, 6, 7, 8, 9, 10, 11};
    TwoTo(d);
  }

  lemma {:induction false} TwoTo(d: nat)
    requires d <= 12
    ensures Pow(2, d) == [1, 2, 4, 8, 16, 32, 64, 128, 256, 512, 1024, 2048, 4096][d]
    decreases d
  {
    if d > 0 {
      TwoTo(d - 1);
    }
  }

  /** round(x * 2^d / q) mod 2^d. */
  function Compress(x: int, d: nat): (r: int)
    requires 0 <= x < Q && 1 <= d <= 11
    ensures FitsU32(x * Pow(2, d) + Q / 2) && 0 <= r < Pow(2, d)
  {
    Widths(d);
    var e := Pow(2, d);
    M.ProductBound(x, e, Q, 2048);
    M.Reduce((x * e + Q / 2) / Q, e);
    ((x * e + Q / 2) / Q) % e
  }

  /** round(y * q / 2^d). */
  function Decompress(y: int, d: nat): (r: int)
    requires 0 <= y < Pow(2, d) && 1 <= d <= 11
    ensures FitsU32(y * Q + Pow(2, d) / 2) && 0 <= r < Q
  {
    Widths(d);
    DecompressRange(y, Pow(2, d));
    (y * Q + Pow(2, d) / 2) / Pow(2, d)
  }

  lemma DecompressRange(y: int, e: int)
    requires e in {2, 4, 8, 16, 32, 64, 128, 256, 512, 1024, 2048} && 0 <= y < e
    ensures 0 <= (y * Q + e / 2) / e < Q
  {
    var r := (y * Q + e / 2) / e;
    assert y * Q + e / 2 == e * r + (y * Q + e / 2) % e;
    if r >= Q { M.ProductBound(e, Q, e, r); }
    if r < 0 { M.Far(e, r); }
  }

  lemma RoundedBack(y: int, er: int, h: int, s: int)
    requires 1 <= h <= 1024 && er == y * Q + h - s && 0 <= s < 2 * h
    ensures (er + Q / 2) / Q == y
  {
    QuotientOf(er + 1664, Q, y, h - s + 1664);
  }

  lemma RoundedExact(y: int, e: int)
    requires 2 <= e <= 2048 && e % 2 == 0 && 0 <= y < e
    ensures ((((y * Q + e / 2) / e) * e + Q / 2) / Q) % e == y
  {
    var m := y * Q + e / 2;
    M.Reduce(m, e);
    RoundedBack(y, (m / e) * e, e / 2, m % e);
    M.Small(y, e);
  }

  /** Compressing what was decompressed changes nothing. */
  lemma CompressOfDecompress(y: int, d: nat)
    requires 1 <= d <= 11 && 0 <= y < Pow(2, d)
    ensures Compress(Decompress(y, d), d) == y
  {
    hide Pow;
    Widths(d);
    RoundedExact(y, Pow(2, d));
  }

  /** round(q / 2^(d+1)): the error of going there and back. */
  function ErrorBound(d: nat): int
    requires 1 <= d <= 11
  {
    Widths(d);
    (Q + Pow(2, d)) / (2 * Pow(2, d))
  }

  /** A multiple of e of at most q/2 + e/2 is a small multiple. */
  lemma SmallMultiple(v: int, e: int)
    requires 2 <= e <= 2048 && e % 2 == 0 && -1664 - e / 2 <= e * v <= 1664 + e / 2
    ensures var b := (Q + e) / (2 * e); 0 <= b <= 832 && -b <= v <= b
  {
    var b := (Q + e) / (2 * e);
    M.Reduce(Q + e, 2 * e);
    HalfMultiple(v, e, b, (Q + e) % (2 * e));
    HalfMultiple(-v, e, b, (Q + e) % (2 * e));
    assert e * (-v) == -(e * v);
  }

  lemma HalfMultiple(v: int, e: int, b: int, t: int)
    requires 2 <= e <= 2048 && Q + e == (2 * e) * b + t && 0 <= t < 2 * e
    ensures 0 <= b <= 832 && (e * v <= 1664 + e / 2 ==> v <= b)
  {
    assert (2 * e) * b == 2 * (e * b);
    assert e * (b + 1) == e * b + e;
    M.Far(e, b);
    if b > 832 { M.ProductBound(e, 833, e, b); }
    if v > b && b >= 0 { M.ProductBound(e, b + 1, e, v); }
  }

  /** Decompressing what was compressed is off by at most round(q / 2^(d+1)), around the circle. */
  lemma DecompressOfCompress(x: int, d: nat)
    requires 1 <= d <= 11 && 0 <= x < Q
    ensures var diff := Decompress(Compress(x, d), d) - x;
      -ErrorBound(d) <= Center(diff % Q) <= ErrorBound(d)
  {
    hide Pow, Center;
    Widths(d);
    ThereAndBack(x, Pow(2, d));
  }

  lemma ThereAndBack(x: int, e: int)
    requires 2 <= e <= 2048 && e % 2 == 0 && 0 <= x < Q
    ensures var y := ((x * e + Q / 2) / Q) % e;
      var b := (Q + e) / (2 * e);
      -b <= Center(((y * Q + e / 2) / e - x) % Q) <= b
  {
    hide Center;
    var n := x * e + Q / 2;
    var c := n / Q;
    M.ProductBound(x, e, Q - 1, e);
    assert 0 <= c <= e;
    if c == e {
      M.Multiple(c, 0, 1, e);
      M.Small(0, e);
      QuotientOf(0 * Q + e / 2, e, 0, e / 2);
      NearTop(x, e, x * e);
    } else {
      M.Small(c, e);
      var m := c * Q + e / 2;
      M.Reduce(m, e);
      Nearby(x, m / e, e, x * e, e * (m / e));
    }
  }

  lemma Nearby(x: int, r: int, e: int, xe: int, er: int)
    requires 2 <= e <= 2048 && e % 2 == 0 && xe == x * e && er == e * r
    requires var c := (xe + Q / 2) / Q; er <= c * Q + e / 2 < er + e
    ensures var b := (Q + e) / (2 * e); -b <= Center((r - x) % Q) <= b
  {
    assert e * (r - x) == er - xe;
    SmallMultiple(r - x, e);
    CenterOf(r - x, (Q + e) / (2 * e));
  }

  lemma NearTop(x: int, e: int, xe: int)
    requires 2 <= e <= 2048 && e % 2 == 0 && 0 <= x < Q && xe == x * e && (xe + Q / 2) / Q == e
    ensures var b := (Q + e) / (2 * e); -b <= Center((0 - x) % Q) <= b
  {
    assert e * (Q - x) == e * Q - xe;
    M.ProductBound(e, 0, e, Q - x);
    SmallMultiple(Q - x, e);
    M.Multiple(0 - x, Q - x, -1, Q);
    CenterOf(Q - x, (Q + e) / (2 * e));
  }

  /** A small number is the centered representative of its remainder. */
  lemma CenterOf(v: int, b: int)
    requires -b <= v <= b && 0 <= b <= 1664
    ensures Center(v % Q) == v
  {
    if v >= 0 {
      M.Small(v, Q);
    } else {
      M.Multiple(v, v + Q, -1, Q);
      M.Small(v + Q, Q);
    }
  }

  /** One bit of the message as a coefficient, with an error: it is read back exactly inside the window. */
  lemma BitRecovered(bit: int, error: int)
    requires (bit == 0 || bit == 1) && -1664 <= error <= 1664
    ensures 0 <= bit < Pow(2, 1)
    ensures Compress((Decompress(bit, 1) + error) % Q, 1) == bit <==> -832 <= error <= (if bit == 0 then 832 else 831)
  {
    Widths(1);
    assert Decompress(bit, 1) == 1665 * bit;
    var w := 1665 * bit + error;
    if w < 0 {
      M.Multiple(w, w + Q, -1, Q);
      M.Small(w + Q, Q);
    } else if w < Q {
      M.Small(w, Q);
    } else {
      M.Multiple(w, w - Q, 1, Q);
      M.Small(w - Q, Q);
    }
  }

  // ---------------------------------------------------------------- polynomials

  function PolyCompress(f: seq<int>, d: nat): (r: seq<int>)
    requires IsPoly(f) && 1 <= d <= 11
    ensures |r| == N && IsDigits(r, Pow(2, d))
  {
    seq(N, i requires 0 <= i < N => Compress(f[i], d))
  }

  function PolyDecompress(f: seq<int>, d: nat): (r: seq<int>)
    requires |f| == N && 1 <= d <= 11 && IsDigits(f, Pow(2, d))
    ensures IsPoly(r)
  {
    seq(N, i requires 0 <= i < N => Decompress(f[i], d))
  }

  method CompressAll(f: seq<int>, d: nat) returns (c: seq<int>)
    requires IsPoly(f) && 1 <= d <= 11
    ensures c == PolyCompress(f, d)
  {
    hide Compress;
    c := [];
    for i := 0 to N
      invariant |c| == i && forall j :: 0 <= j < i ==> c[j] == Compress(f[j], d)
    {
      c := c + [Compress(f[i], d)];
    }
  }

  method DecompressAll(f: seq<int>, d: nat) returns (c: seq<int>)
    requires |f| == N && 1 <= d <= 11 && IsDigits(f, Pow(2, d))
    ensures c == PolyDecompress(f, d)
  {
    hide Decompress;
    c := [];
    for i := 0 to N
      invariant |c| == i && forall j :: 0 <= j < i ==> c[j] == Decompress(f[j], d)
    {
      c := c + [Decompress(f[i], d)];
    }
  }

  // ---------------------------------------------------------------- shifts

  /** v shifted right by p bits. */
  function Shift(v: int, p: nat): int
    decreases p, v
  {
    if p == 0 then v else Shift(v / 2, p - 1)
  }

  lemma {:induction false} ShiftMore(v: int, a: nat, b: nat)
    ensures Shift(Shift(v, a), b) == Shift(v, a + b)
    decreases a
  {
    if a > 0 {
      ShiftMore(v / 2, a - 1, b);
    }
  }

  lemma NestedQuotient(v: int, a: nat, b: nat)
    requires a > 0 && b > 0
    ensures a * b > 0 && (v / a) / b == v / (a * b)
  {
    var q, r := v / a, v % a;
    M.Reduce(v, a);
    M.Reduce(q, b);
    RegroupQuotient(v, a, b, q, r, q / b, q % b);
    assert (q / b) * (a * b) == (a * b) * (q / b);
    QuotientOf(v, a * b, q / b, a * (q % b) + r);
  }

  lemma QuotientOf(v: int, m: nat, k: int, t: int)
    requires m > 0 && v == m * k + t && 0 <= t < m
    ensures v / m == k && v % m == t
  {
    assert k * m == m * k;
    M.Multiple(v, t, k, m);
    M.Small(t, m);
    assert m * (v / m - k) == 0 by { assert v == m * (v / m) + v % m; }
    M.Far(m, v / m - k);
  }

  lemma {:induction false} ShiftIsQuotient(v: int, p: nat)
    ensures Pow(2, p) > 0 && Shift(v, p) == v / Pow(2, p)
    decreases p
  {
    PowPositive(2, p);
    if p > 0 {
      ShiftIsQuotient(v / 2, p - 1);
      NestedQuotient(v, 2, Pow(2, p - 1));
    }
  }

  /** Digit i in base 2^d starts at bit d*i. */
  lemma {:induction false} DigitAt(v: int, n: nat, d: nat, i: nat)
    requires i < n
    ensures Pow(2, d) > 0 && 0 <= d * i && OfValue(v, n, Pow(2, d))[i] == Shift(v, d * i) % Pow(2, d)
    decreases i
  {
    PowPositive(2, d);
    if i == 0 {
      assert d * i == 0;
    } else {
      ShiftIsQuotient(v, d);
      DigitAt(v / Pow(2, d), n - 1, d, i - 1);
      ShiftMore(v, d, d * (i - 1));
      assert d * i == d + d * (i - 1);
    }
  }

  lemma EightHalves(v: int)
    ensures Shift(v, 8) == v / 256
  {
    TwoTo(8);
    ShiftIsQuotient(v, 8);
  }

  /** Dropping whole bytes. */
  lemma {:induction false} DropBytes(b: seq<int>, j: nat)
    requires IsDigits(b, 256) && j <= |b|
    ensures Shift(Eval(b, 256), 8 * j) == Eval(b[j..], 256)
    decreases j
  {
    if j == 0 {
      assert b[0..] == b;
    } else {
      EightHalves(Eval(b, 256));
      ShiftMore(Eval(b, 256), 8, 8 * (j - 1));
      QuotientOf(Eval(b, 256), 256, Eval(b[1..], 256), b[0]);
      DropBytes(b[1..], j - 1);
      assert b[1..][j - 1..] == b[j..];
    }
  }

  lemma LowBitOf(x: int, high: int, p: nat, k: nat)
    requires p > 0 && p * (2 * k) == 256
    ensures ((x + 256 * high) / p) % 2 == (x / p) % 2
  {
    M.Reduce(x, p);
    assert p * (x / p + (2 * k) * high) == p * (x / p) + (p * (2 * k)) * high by { M.Assoc(p, 2 * k, high); }
    QuotientOf(x + 256 * high, p, x / p + (2 * k) * high, x % p);
    assert (2 * k) * high == (k * high) * 2;
    M.Multiple(x / p + (2 * k) * high, x / p, k * high, 2);
  }

  lemma PowersBelow(r: nat)
    requires r < 8
    ensures 1 <= Pow(2, r) <= 128 && Pow(2, r + 1) == 2 * Pow(2, r) && Pow(2, r) * (2 * Pow(2, 7 - r)) == 256
  {
    PowPositive(2, r);
    PowAdd(2, r, 7 - r);
    PowPositive(2, 7 - r);
    TwoTo(7);
    var a, c := Pow(2, r), Pow(2, 7 - r);
    assert a * c == 128;
    assert a * (2 * c) == 2 * (a * c);
    if a > 128 { M.ProductBound(a, 1, a, c); }
  }

  /** Bit r of the lowest byte. */
  lemma LowBit(x: int, high: int, r: nat)
    requires r < 8
    ensures Pow(2, r) > 0 && Shift(x + 256 * high, r) % 2 == (x / Pow(2, r)) % 2
  {
    hide Pow, Shift;
    ShiftIsQuotient(x + 256 * high, r);
    PowersBelow(r);
    PowersBelow(7 - r);
    LowBitOf(x, high, Pow(2, r), Pow(2, 7 - r));
  }

  /** The bit at a position of a byte string, as the codecs read it. */
  function BitAt(b: seq<int>, p: nat): (r: int)
    requires IsDigits(b, 256) && p / 8 < |b|
    ensures r == 0 || r == 1
  {
    PowPositive(2, p % 8);
    (b[p / 8] / Pow(2, p % 8)) % 2
  }

  lemma BitIsShift(b: seq<int>, p: nat)
    requires IsDigits(b, 256) && p / 8 < |b|
    ensures BitAt(b, p) == Shift(Eval(b, 256), p) % 2
  {
    var j, r := p / 8, p % 8;
    DropBytes(b, j);
    ShiftMore(Eval(b, 256), 8 * j, r);
    assert b[j..][0] == b[j];
    LowBit(b[j], Eval(b[j..][1..], 256), r);
  }

  // ---------------------------------------------------------------- encoding

  function ByteEncode(f: seq<int>, d: nat): (b: seq<int>)
    requires |f| == N
    ensures |b| == 32 * d && IsDigits(b, 256)
  {
    BitPacking.Packed(f, d)
  }

  lemma {:induction false} EvalUpdate(a: seq<int>, j: nat, x: int, base: int)
    requires j < |a|
    ensures Eval(a[j := a[j] + x], base) == Eval(a, base) + Pow(base, j) * x
    decreases |a|
  {
    var u := a[j := a[j] + x];
    if j == 0 {
      assert u[1..] == a[1..] && Pow(base, 0) == 1;
    } else {
      EvalUpdate(a[1..], j - 1, x, base);
      assert u[1..] == a[1..][j - 1 := a[1..][j - 1] + x];
      assert base * (Pow(base, j - 1) * x) == Pow(base, j) * x by { M.Assoc(base, Pow(base, j - 1), x); }
      assert base * (Eval(a[1..], base) + Pow(base, j - 1) * x) == base * Eval(a[1..], base) + base * (Pow(base, j - 1) * x);
    }
  }

  /** The output after p bits: their value, and nothing above them. */
  ghost predicate Written(out: seq<int>, p: nat, value: int) {
    && IsDigits(out, 256) && Eval(out, 256) == value
    && (forall k :: 0 <= k < |out| && k > p / 8 ==> out[k] == 0)
    && (p / 8 < |out| ==> out[p / 8] < Pow(2, p % 8))
  }

  lemma WrittenNothing(out: seq<int>)
    requires forall k :: 0 <= k < |out| ==> out[k] == 0
    ensures Written(out, 0, 0)
  {
    NothingValue(out);
  }

  lemma {:induction false} NothingValue(out: seq<int>)
    requires forall k :: 0 <= k < |out| ==> out[k] == 0
    ensures Eval(out, 256) == 0
  {
    if out != [] {
      NothingValue(out[1..]);
    }
  }

  /** Setting bit p with an or adds 2^p. */
  lemma SetBit(out: seq<int>, p: nat, value: int)
    requires Written(out, p, value) && p / 8 < |out|
    ensures 0 <= out[p / 8] && Pow(2, p % 8) >= 1
    ensures var x := Or(out[p / 8], 1 * Pow(2, p % 8)); x == out[p / 8] + Pow(2, p % 8) && Written(out[p / 8 := x], p + 1, value + Pow(2, p))
  {
    hide Pow, Or, Eval;
    var j, r := p / 8, p % 8;
    PowersBelow(r);
    OrDisjoint(out[j], 1, r);
    EvalUpdate(out, j, Pow(2, r), 256);
    BitWeight(j, r);
    NextBit(p);
    if r == 7 { TwoTo(0); }
  }

  lemma NextBit(p: nat)
    ensures if p % 8 == 7 then (p + 1) / 8 == p / 8 + 1 && (p + 1) % 8 == 0 else (p + 1) / 8 == p / 8 && (p + 1) % 8 == p % 8 + 1
  {
  }

  lemma BitWeight(j: nat, r: nat)
    ensures Pow(256, j) * Pow(2, r) == Pow(2, 8 * j + r)
  {
    TwoTo(8);
    PowPow(2, 8, j);
    PowAdd(2, 8 * j, r);
  }

  lemma SkipBit(out: seq<int>, p: nat, value: int)
    requires Written(out, p, value)
    ensures Written(out, p + 1, value)
  {
    hide Pow, Eval;
    NextBit(p);
    PowersBelow(p % 8);
    PowersBelow((p + 1) % 8);
  }

  /** The value written after b bits of coefficient i. */
  ghost function Prefix(f: seq<int>, d: nat, i: nat, b: nat): int
    requires i < |f|
  {
    PowPositive(2, b);
    Eval(f[..i], Pow(2, d)) + Pow(2, d * i) * (f[i] % Pow(2, b))
  }

  lemma WeighBit(w: int, x: int, p: int, t: int)
    ensures w * (x + p * t) == w * x + t * (w * p)
  {
    M.Assoc(w, p, t);
    assert (w * p) * t == t * (w * p);
  }

  /** One more bit of coefficient i. */
  lemma PrefixNext(f: seq<int>, d: nat, i: nat, b: nat)
    requires i < |f| && b < d && 0 <= f[i]
    ensures Pow(2, b) > 0 && 0 <= d * i && Prefix(f, d, i, b + 1) == Prefix(f, d, i, b) + ((f[i] / Pow(2, b)) % 2) * Pow(2, d * i + b)
  {
    hide Pow, Eval;
    PowPositive(2, b);
    PowPositive(2, b + 1);
    LowDigits(f[i], Pow(2, b), 2);
    PowAdd(2, b, 1);
    TwoTo(1);
    PowAdd(2, d * i, b);
    WeighBit(Pow(2, d * i), f[i] % Pow(2, b), Pow(2, b), (f[i] / Pow(2, b)) % 2);
  }

  lemma PrefixStart(f: seq<int>, d: nat, i: nat)
    requires i < |f|
    ensures Prefix(f, d, i, 0) == Eval(f[..i], Pow(2, d))
  {
    assert Pow(2, 0) == 1 && f[i] % 1 == 0;
    assert Pow(2, d * i) * 0 == 0;
  }

  lemma PrefixFull(f: seq<int>, d: nat, i: nat)
    requires i < |f| && 0 <= f[i] < Pow(2, d)
    ensures Prefix(f, d, i, d) == Eval(f[..i + 1], Pow(2, d))
  {
    M.Small(f[i], Pow(2, d));
    assert f[..i + 1] == f[..i] + [f[i]];
    ValueAppend(f[..i], f[i], Pow(2, d));
    PowPow(2, d, i);
  }

  /** The values of the packed bits, one bit at a time. */
  method EncodeBits(f: seq<int>, d: nat) returns (b: seq<int>)
    requires |f| == N && 1 <= d <= 12 && IsDigits(f, Pow(2, d))
    ensures b == ByteEncode(f, d)
  {
    hide *;
    Shape(f, d);
    var out: seq<int> := seq(32 * d, i => 0);
    var bitPos := 0;
    WrittenNothing(out);
    PrefixNone(f, d);
    for i := 0 to N
      invariant |out| == 32 * d && bitPos == d * i && Written(out, bitPos, Eval(f[..i], Pow(2, d)))
    {
      ShapeAt(f, d, i);
      PrefixStart(f, d, i);
      for k := 0 to d
        invariant |out| == 32 * d && bitPos == d * i + k && Written(out, bitPos, Prefix(f, d, i, k))
      {
        PrefixNext(f, d, i, k);
        InRange(d, i, k);
        if (f[i] / Pow(2, k)) % 2 == 1 {
          SetBit(out, bitPos, Prefix(f, d, i, k));
          out := out[bitPos / 8 := Or(out[bitPos / 8], 1 * Pow(2, bitPos % 8))];
        } else {
          SkipBit(out, bitPos, Prefix(f, d, i, k));
        }
        bitPos := bitPos + 1;
      }
      PrefixFull(f, d, i);
      assert d * (i + 1) == d * i + d;
    }
    assert f[..N] == f;
    AllWritten(f, d, out, bitPos);
    b := out;
  }

  lemma Shape(f: seq<int>, d: nat)
    ensures |f| == N ==> |f| == 256
    ensures Pow(2, d) > 0
  {
    PowPositive(2, d);
  }

  lemma ShapeAt(f: seq<int>, d: nat, i: nat)
    requires |f| == N && IsDigits(f, Pow(2, d)) && i < N
    ensures i < |f| && 0 <= f[i] < Pow(2, d)
  {
  }

  lemma PrefixNone(f: seq<int>, d: nat)
    ensures Eval(f[..0], Pow(2, d)) == 0 && d * 0 == 0
  {
  }

  lemma InRange(d: nat, i: nat, k: nat)
    requires i < N && k < d
    ensures 0 <= d * i && (d * i + k) / 8 < 32 * d
  {
    assert d * i + k < 256 * d by {
      assert d * 256 == d * i + d * (256 - i) && d * (256 - i) >= d by { M.ProductBound(d, 1, d, 256 - i); }
    }
  }

  lemma AllWritten(f: seq<int>, d: nat, out: seq<int>, p: nat)
    requires |f| == N && IsDigits(f, Pow(2, d)) && |out| == 32 * d && Written(out, p, Eval(f, Pow(2, d)))
    ensures out == ByteEncode(f, d)
  {
    OfValueOfDigits(out, 256);
  }

  // ---------------------------------------------------------------- decoding

  function Modulus(d: nat): (m: nat)
    requires 1 <= d <= 12
    ensures m > 0 && m <= Pow(2, d)
  {
    TwoTo(d);
    assert d in {1, 2, 3, 4, 5, 6, 7, 8, 9, 10, 11, 12};
    if d < 12 then Pow(2, d) else Q
  }

  function ByteDecode(b: seq<int>, d: nat): (f: seq<int>)
    requires 1 <= d <= 12
    ensures |f| == N && IsDigits(f, Modulus(d))
  {
    var v := BitPacking.Unpacked(b, d, N);
    DecodedRange(v, d);
    seq(N, i requires 0 <= i < N => v[i] % Modulus(d))
  }

  lemma DecodedRange(v: seq<int>, d: nat)
    requires |v| == N && 1 <= d <= 12
    ensures forall i :: 0 <= i < N ==> 0 <= v[i] % Modulus(d) < Modulus(d)
  {
    forall i | 0 <= i < N
      ensures 0 <= v[i] % Modulus(d) < Modulus(d)
    {
      M.Reduce(v[i], Modulus(d));
    }
  }

  /** Decoding undoes encoding. */
  lemma DecodeOfEncode(f: seq<int>, d: nat)
    requires |f| == N && 1 <= d <= 12 && IsDigits(f, Modulus(d))
    ensures ByteDecode(ByteEncode(f, d), d) == f
  {
    BitPacking.UnpackOfPack(f, d);
    forall i | 0 <= i < N
      ensures f[i] % Modulus(d) == f[i]
    {
      M.Small(f[i], Modulus(d));
    }
  }

  /** Below twelve bits every byte string is an encoding; messages in particular. */
  lemma EncodeOfDecode(b: seq<int>, d: nat)
    requires 1 <= d < 12 && |b| == 32 * d && IsDigits(b, 256)
    ensures ByteEncode(ByteDecode(b, d), d) == b
  {
    BitPacking.PackOfUnpack(b, d, N);
    var v := BitPacking.Unpacked(b, d, N);
    forall i | 0 <= i < N
      ensures v[i] % Modulus(d) == v[i]
    {
      M.Small(v[i], Modulus(d));
    }
    assert ByteDecode(b, d) == v;
  }

  /** The value read so far, one bit more. */
  lemma ValueNext(b: seq<int>, d: nat, i: nat, k: nat)
    requires IsDigits(b, 256) && |b| == 32 * d && i < N && k < d
    ensures 0 <= d * i && (d * i + k) / 8 < |b| && Pow(2, k) > 0 && Pow(2, k + 1) > 0
    ensures var v := Shift(Eval(b, 256), d * i);
      0 <= v % Pow(2, k) && Or(v % Pow(2, k), BitAt(b, d * i + k) * Pow(2, k)) == v % Pow(2, k + 1)
  {
    InRange(d, i, k);
    PowPositive(2, k);
    PowPositive(2, k + 1);
    var v := Shift(Eval(b, 256), d * i);
    ValueBound(b, 256);
    ShiftIsQuotient(Eval(b, 256), d * i);
    BitIsShift(b, d * i + k);
    ShiftMore(Eval(b, 256), d * i, k);
    ShiftIsQuotient(v, k);
    QuotientNonNegative(Eval(b, 256), Pow(2, d * i));
    M.Reduce(v, Pow(2, k));
    OrDisjoint(v % Pow(2, k), BitAt(b, d * i + k), k);
    LowDigits(v, Pow(2, k), 2);
    assert Pow(2, k + 1) == Pow(2, k) * 2;
    assert BitAt(b, d * i + k) * Pow(2, k) == Pow(2, k) * BitAt(b, d * i + k);
  }

  lemma QuotientNonNegative(v: int, m: int)
    requires v >= 0 && m > 0
    ensures v / m >= 0
  {
    M.Far(m, v / m);
    M.Reduce(v, m);
  }

  method DecodeBits(b: seq<int>, d: nat) returns (f: seq<int>)
    requires 1 <= d <= 12 && |b| == 32 * d && IsDigits(b, 256)
    ensures f == ByteDecode(b, d)
  {
    hide *;
    f := [];
    var bitPos := 0;
    ghost var all := Eval(b, 256);
    Ends();
    DecodedNone(b, d);
    for i := 0 to 256
      invariant bitPos == d * i && |f| == i && DecodedTo(f, b, d)
    {
      var value: int := 0;
      FirstValue(Shift(all, d * i));
      for k := 0 to d
        invariant bitPos == d * i + k && Pow(2, k) > 0 && value == Shift(all, d * i) % Pow(2, k) && value >= 0
      {
        SameN(i);
        ValueNext(b, d, i, k);
        value := Or(value, BitAt(b, bitPos) * Pow(2, k));
        bitPos := bitPos + 1;
      }
      DecodedNext(f, b, d, value);
      f := f + [value % Modulus(d)];
      assert d * (i + 1) == d * i + d;
    }
    DecodedAll(f, b, d);
  }

  lemma SameN(i: nat)
    requires i < 256
    ensures i < N
  {
  }

  lemma FirstValue(v: int)
    ensures Pow(2, 0) > 0 && v % Pow(2, 0) == 0
  {
    assert Pow(2, 0) == 1;
  }

  ghost predicate DecodedTo(f: seq<int>, b: seq<int>, d: nat)
    requires 1 <= d <= 12
  {
    |f| <= N && forall j :: 0 <= j < |f| ==> f[j] == ByteDecode(b, d)[j]
  }

  lemma DecodedNone(b: seq<int>, d: nat)
    requires 1 <= d <= 12
    ensures DecodedTo([], b, d) && d * 0 == 0
  {
  }

  lemma DecodedNext(f: seq<int>, b: seq<int>, d: nat, value: int)
    requires 1 <= d <= 12 && |f| < 256 && DecodedTo(f, b, d) && 0 <= d * |f| && Pow(2, d) > 0
    requires value == Shift(Eval(b, 256), d * |f|) % Pow(2, d)
    ensures DecodedTo(f + [value % Modulus(d)], b, d)
  {
    DigitAt(Eval(b, 256), N, d, |f|);
  }

  lemma DecodedAll(f: seq<int>, b: seq<int>, d: nat)
    requires 1 <= d <= 12 && |f| == 256 && DecodedTo(f, b, d)
    ensures f == ByteDecode(b, d)
  {
  }

  // ---------------------------------------------------------------- the binomial sampler

  /** The sum of `count` bits from a position on. */
  function BitSum(b: seq<int>, from: nat, count: nat): (r: int)
    requires IsDigits(b, 256) && from + count <= 8 * |b|
    ensures 0 <= r <= count
    decreases count
  {
    if count == 0 then 0 else BitSum(b, from, count - 1) + BitAt(b, from + count - 1)
  }

  lemma CbdPlace(i: nat, eta: nat)
    requires i < N && eta <= 4
    ensures 0 <= 2 * i * eta && 2 * i * eta + 2 * eta <= 512 * eta
  {
    M.ProductBound(2 * i, eta, 510, eta);
  }

  /** Coefficient i: the difference of two sums of eta bits. */
  function CbdAt(b: seq<int>, eta: nat, i: nat): (r: int)
    requires eta <= 4 && |b| == 64 * eta && IsDigits(b, 256) && i < N
    ensures 0 <= r < Q && Center(r) <= eta && -Center(r) <= eta
  {
    CbdPlace(i, eta);
    var diff: int := BitSum(b, 2 * i * eta, eta) - BitSum(b, 2 * i * eta + eta, eta);
    CenterOf(diff, eta);
    Reduce(diff)
  }

  function Cbd(b: seq<int>, eta: nat): (f: seq<int>)
    requires eta <= 4 && |b| == 64 * eta && IsDigits(b, 256)
    ensures IsPoly(f)
  {
    seq(N, i requires 0 <= i < N => CbdAt(b, eta, i))
  }

  /** The coefficients are small: between -eta and eta. */
  lemma CbdSmall(b: seq<int>, eta: nat, i: nat)
    requires eta <= 4 && |b| == 64 * eta && IsDigits(b, 256) && i < N
    ensures Center(Cbd(b, eta)[i]) <= eta && -Center(Cbd(b, eta)[i]) <= eta
  {
    hide CbdAt;
  }

  method CbdCoefficient(b: seq<int>, eta: nat, i: nat) returns (c: int)
    requires eta <= 4 && |b| == 64 * eta && IsDigits(b, 256) && i < N
    ensures c == CbdAt(b, eta, i)
  {
    hide BitAt;
    CbdPlace(i, eta);
    var from := 2 * i * eta;
    var x: int, y: int := 0, 0;
    for k := 0 to eta
      invariant x == BitSum(b, from, k) && y == BitSum(b, from + eta, k)
    {
      x := x + BitAt(b, from + k);
      y := y + BitAt(b, from + eta + k);
    }
    var diff: int := x - y;
    c := Reduce(diff);
  }

  method SampleCbd(b: seq<int>, eta: nat) returns (f: seq<int>)
    requires eta <= 4 && |b| == 64 * eta && IsDigits(b, 256)
    ensures f == Cbd(b, eta)
  {
    hide CbdAt;
    f := [];
    for i := 0 to N
      invariant |f| == i && forall j :: 0 <= j < i ==> f[j] == CbdAt(b, eta, j)
    {
      var c := CbdCoefficient(b, eta, i);
      f := f + [c];
    }
  }
}
