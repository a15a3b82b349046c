/**
 The one-time authenticator Poly1305 (section 2.5 of RFC 8439) over seventeen limbs of 8
 bits in 32-bit words: no sum overflows, the partial reductions are exact modulo
 p = 2^130 - 5, and the masked final step picks the residue.
 */
module Poly1305 {
  import opened NttSpec
  import opened Digits
  import opened Masks
  import F = FoldedProduct
  import M = Modular

  const LIMBS: nat := 17
  const P: nat := 0x3_FFFF_FFFF_FFFF_FFFF_FFFF_FFFF_FFFF_FFFB
  const TWO_128: nat := 0x1_0000_0000_0000_0000_0000_0000_0000_0000
  const TWO_136: nat := 0x100_0000_0000_0000_0000_0000_0000_0000_0000
  const FOLD: nat := 320

  predicate FitsU32(x: int) {
    0 <= x < 0x1_0000_0000
  }

  ghost predicate IsLimbs(x: seq<int>) {
    |x| == LIMBS && IsDigits(x, 256)
  }

  function Value(x: seq<int>): int {
    Eval(x, 256)
  }

  lemma PowersOf256()
    ensures Pow(256, 16) == TWO_128 && Pow(256, 17) == TWO_136
  {
    assert Pow(256, 2) == 0x1_0000;
    PowAdd(256, 2, 2);
    PowAdd(256, 4, 4);
    PowAdd(256, 8, 8);
    PowAdd(256, 1, 16);
    assert Pow(256, 1) == 256;
  }

  /** Overflowing limbs come back multiplied by 320 = 64 * 5. */
  lemma FoldingFactor()
    ensures Pow(256, LIMBS) % P == FOLD % P
  {
    PowersOf256();
    M.Multiple(TWO_136, FOLD, 64, P);
  }

  lemma LimbsBelow(x: seq<int>)
    requires IsLimbs(x)
    ensures 0 <= Value(x) < TWO_136
  {
    PowersOf256();
    ValueBound(x, 256);
  }

  // ---------------------------------------------------------------- carry chains

  lemma NextPrefix(x: seq<int>, i: nat)
    requires i < |x|
    ensures Value(x[..i + 1]) == Value(x[..i]) + Pow(256, i) * x[i]
  {
    assert x[..i + 1] == x[..i] + [x[i]];
    ValueAppend(x[..i], x[i], 256);
  }

  lemma SplitCarry(t: int, v: int, carry: int, out: int, w: int, before: int)
    requires v + carry == out + 256 * w && before == t * carry
    ensures before + t * v == t * out + (256 * t) * w
  {
    assert t * (v + carry) == t * v + t * carry;
    M.Assoc(t, 256, w);
    assert t * (out + 256 * w) == t * out + t * (256 * w);
    assert t * 256 == 256 * t;
  }

  /** One more limb of a carry chain; y holds the finished limbs. */
  lemma CarryNext(x: seq<int>, y: seq<int>, i: nat, total: int, carry: int, v: int)
    requires i < |x| && i < |y|
    requires Value(x[..i]) + Pow(256, i) * carry == total && y[..i] == x[..i] && y[i] == (carry + v) % 256
    ensures Value(y[..i + 1]) + Pow(256, i + 1) * ((carry + v) / 256) == total + Pow(256, i) * v
  {
    NextPrefix(y, i);
    SplitCarry(Pow(256, i), v, carry, (carry + v) % 256, (carry + v) / 256, Pow(256, i) * carry);
    assert Pow(256, i + 1) == 256 * Pow(256, i);
  }

  lemma PrefixDigits(x: seq<int>, y: seq<int>, i: nat)
    requires i < |x| == |y| && y[..i] == x[..i] && IsDigits(x[..i], 256) && 0 <= y[i] < 256
    ensures IsDigits(y[..i + 1], 256)
  {
    assert y[..i + 1] == x[..i] + [y[i]];
  }

  /** h += c, the carry out of the last limb being dropped. */
  method Add(h: array<int>, c: seq<int>)
    requires h.Length == LIMBS && IsLimbs(h[..]) && IsLimbs(c)
    modifies h
    ensures IsLimbs(h[..]) && Value(h[..]) == (Value(old(h[..])) + Value(c)) % TWO_136
  {
    ghost var was := h[..];
    var carry := 0;
    for i := 0 to LIMBS
      invariant 0 <= carry <= 1 && h[i..] == was[i..] && IsDigits(h[..i], 256)
      invariant Value(h[..i]) + Pow(256, i) * carry == Value(was[..i]) + Value(c[..i])
    {
      ghost var x := h[..];
      assert h[i] == was[i] by { assert h[i..][0] == was[i..][0]; }
      var v := h[i] + c[i];
      assert FitsU32(carry + v);
      h[i] := (carry + v) % 256;
      ghost var y := h[..];
      assert y[..i] == x[..i] && y[i + 1..] == x[i + 1..];
      assert x[i + 1..] == x[i..][1..] && was[i + 1..] == was[i..][1..];
      PrefixDigits(x, y, i);
      assert x[..i] == h[..i];
      CarryNext(x, y, i, Value(was[..i]) + Value(c[..i]), carry, v);
      NextPrefix(was, i);
      NextPrefix(c, i);
      TimesSum(Pow(256, i), was[i], c[i]);
      carry := (carry + v) / 256;
    }
    assert h[..] == h[..LIMBS] && was == was[..LIMBS] && c == c[..LIMBS];
    DropCarry(h[..], Value(was) + Value(c), carry);
  }

  lemma TimesSum(t: int, a: int, b: int)
    ensures t * (a + b) == t * a + t * b
  {
  }

  lemma DropCarry(x: seq<int>, total: int, carry: int)
    requires IsLimbs(x) && Value(x) + Pow(256, 17) * carry == total
    ensures Value(x) == total % TWO_136
  {
    PowersOf256();
    LimbsBelow(x);
    M.Multiple(total, Value(x), carry, TWO_136);
    M.Small(Value(x), TWO_136);
  }

  // ---------------------------------------------------------------- products

  lemma {:induction false} CoefBound(a: seq<int>, b: seq<int>, k: nat, m: nat)
    requires IsLimbs(a) && IsLimbs(b) && m <= LIMBS && k < LIMBS
    ensures 0 <= F.Coef(a, b, k, m, FOLD) <= m * (255 * 255 * FOLD)
  {
    if m > 0 {
      CoefBound(a, b, k, m - 1);
      var s := F.Shifted(b, m - 1, k, FOLD);
      assert 0 <= s <= 255 * FOLD;
      M.ProductBound(a[m - 1], s, 255, 255 * FOLD);
    }
  }

  /** One term of a sum: limbs that wrap around are multiplied by 320. */
  lemma CoefNext(h: seq<int>, r: seq<int>, i: nat, j: nat)
    requires IsLimbs(h) && IsLimbs(r) && i < LIMBS && j < LIMBS
    ensures F.Coef(h, r, i, j + 1, FOLD) == F.Coef(h, r, i, j, FOLD) + h[j] * (if j <= i then r[i - j] else FOLD * r[i + LIMBS - j])
    ensures 0 <= F.Coef(h, r, i, j + 1, FOLD) <= (j + 1) * (255 * 255 * FOLD)
  {
    CoefBound(h, r, i, j + 1);
  }

  lemma CoefNone(h: seq<int>, r: seq<int>, i: nat)
    requires IsLimbs(h) && IsLimbs(r) && i < LIMBS
    ensures F.Coef(h, r, i, 0, FOLD) == 0
  {
  }

  lemma ProductIs(h: seq<int>, r: seq<int>, x: seq<int>)
    requires IsLimbs(h) && IsLimbs(r) && |x| == LIMBS && forall k :: 0 <= k < LIMBS ==> x[k] == F.Coef(h, r, k, LIMBS, FOLD)
    ensures x == F.Product(h, r, FOLD)
  {
    hide F.Coef;
  }

  const LARGEST_SUM: nat := 353_736_000
  const LARGEST_LIMB: nat := 443_904_255

  /** The seventeen sums of products, each below 2^32. */
  method Products(h: seq<int>, r: seq<int>) returns (x: array<int>)
    requires IsLimbs(h) && IsLimbs(r)
    ensures fresh(x) && x.Length == LIMBS && x[..] == F.Product(h, r, FOLD)
    ensures forall i :: 0 <= i < LIMBS ==> 0 <= x[i] <= LARGEST_SUM
  {
    hide F.Coef, F.Product;
    x := new int[LIMBS](_ => 0);
    for i := 0 to LIMBS
      invariant forall k :: 0 <= k < i ==> x[k] == F.Coef(h, r, k, LIMBS, FOLD)
      invariant forall k :: 0 <= k < i ==> 0 <= x[k] <= LARGEST_SUM
    {
      var sum := 0;
      CoefNone(h, r, i);
      for j := 0 to LIMBS
        modifies {}
        invariant sum == F.Coef(h, r, i, j, FOLD) && 0 <= sum <= j * (255 * 255 * FOLD)
      {
        CoefNext(h, r, i, j);
        sum := sum + h[j] * (if j <= i then r[i - j] else FOLD * r[i + LIMBS - j]);
        assert FitsU32(sum);
      }
      x[i] := sum;
    }
    ProductIs(h, r, x[..]);
  }

  // ---------------------------------------------------------------- partial reduction

  /** What a reduction pass makes of its top: the quotient by four of the top limb with its carry. */
  function TopOf(x: seq<int>): int
    requires |x| == LIMBS
  {
    Value(x[..16]) / TWO_128 + x[16]
  }

  ghost predicate IsWide(x: seq<int>) {
    |x| == LIMBS && forall i :: 0 <= i < LIMBS ==> 0 <= x[i] <= LARGEST_LIMB
  }

  /** One pass: sixteen limbs below 256, the top one below 4, the rest folded into the lowest. */
  ghost predicate Reduced(x: seq<int>, y: seq<int>)
    requires |x| == LIMBS
  {
    && |y| == LIMBS && IsDigits(y[1..16], 256) && y[16] == TopOf(x) % 4
    && 0 <= y[0] - 5 * (TopOf(x) / 4) < 256
    && Value(y) == Value(x) - (TopOf(x) / 4) * P
  }

  method Pass(x: array<int>)
    requires x.Length == LIMBS && IsWide(x[..])
    modifies x
    ensures Reduced(old(x[..]), x[..])
  {
    ghost var was := x[..];
    var carry := 0;
    for i := 0 to 16
      invariant 0 <= carry < 0x100_0000 && x[i..] == was[i..] && IsDigits(x[..i], 256)
      invariant Value(x[..i]) + Pow(256, i) * carry == Value(was[..i])
    {
      ghost var u := x[..];
      assert x[i] == was[i] by { assert x[i..][0] == was[i..][0]; }
      assert FitsU32(carry + x[i]);
      var v := x[i];
      x[i] := (carry + v) % 256;
      ghost var y := x[..];
      assert y[..i] == u[..i] && y[i + 1..] == u[i + 1..];
      assert u[i + 1..] == u[i..][1..] && was[i + 1..] == was[i..][1..];
      assert u[..i] == x[..i];
      PrefixDigits(u, y, i);
      CarryNext(u, y, i, Value(was[..i]), carry, v);
      NextPrefix(was, i);
      carry := (carry + v) / 256;
    }
    ghost var low := x[..16];
    assert x[16] == was[16] by { assert x[16..][0] == was[16..][0]; }
    LowCarry(low, Value(was[..16]), carry);
    carry := carry + x[16];
    x[16] := carry % 4;
    carry := 5 * (carry / 4);
    assert FitsU32(carry);
    x[0] := x[0] + carry;
    assert x[..][1..16] == low[1..] && x[0] == low[0] + carry;
    FoldTop(was, low, x[..]);
  }

  lemma LowCarry(low: seq<int>, total: int, carry: int)
    requires |low| == 16 && IsDigits(low, 256) && Value(low) + Pow(256, 16) * carry == total
    ensures carry == total / TWO_128 && Value(low) == total % TWO_128
  {
    PowersOf256();
    ValueBound(low, 256);
  }

  /** 4 * 2^128 = p + 5: what leaves the top limb comes back five-fold. */
  lemma FoldTop(x: seq<int>, low: seq<int>, y: seq<int>)
    requires IsWide(x) && |low| == 16 && IsDigits(low, 256) && Value(low) == Value(x[..16]) % TWO_128
    requires |y| == LIMBS && y[1..16] == low[1..] && y[0] == low[0] + 5 * (TopOf(x) / 4) && y[16] == TopOf(x) % 4
    ensures Reduced(x, y)
  {
    PowersOf256();
    NextPrefix(x, 16);
    NextPrefix(y, 16);
    assert x[..17] == x && y[..17] == y;
    FirstLimb(low, y[..16]);
    assert y[..16][1..] == y[1..16];
  }

  /** Changing the lowest limb changes the value by as much. */
  lemma FirstLimb(a: seq<int>, b: seq<int>)
    requires |a| == |b| > 0 && a[1..] == b[1..]
    ensures Value(b) - Value(a) == b[0] - a[0]
  {
  }

  // ---------------------------------------------------------------- multiplication modulo p

  lemma {:induction false} ValueAtMost(x: seq<int>, k: nat)
    requires forall i :: 0 <= i < |x| ==> 0 <= x[i] <= 255 * k
    ensures 0 <= Value(x) <= k * (Pow(256, |x|) - 1)
  {
    if x != [] {
      ValueAtMost(x[1..], k);
      var p := Pow(256, |x| - 1);
      assert k * (256 * p - 1) == 256 * (k * (p - 1)) + 255 * k;
    }
  }

  /** After the sums: the first pass leaves a lowest limb far below 2^32. */
  lemma FirstPassBound(x: seq<int>, y: seq<int>)
    requires |x| == LIMBS && (forall i :: 0 <= i < LIMBS ==> 0 <= x[i] <= LARGEST_SUM) && Reduced(x, y)
    ensures 0 <= y[0] <= LARGEST_LIMB && 0 <= y[16] <= 3
  {
    PowersOf256();
    hide Eval, Pow;
    ValueAtMost(x[..16], 1_387_200);
  }

  lemma LowBelow(x: seq<int>, first: nat)
    requires |x| == LIMBS && IsDigits(x[1..16], 256) && 0 <= x[0] <= first + 255
    ensures 0 <= Value(x[..16]) < TWO_128 + first
  {
    PowersOf256();
    var low := x[..16][0 := if x[0] <= 255 then x[0] else 255];
    forall i | 0 <= i < 16
      ensures 0 <= low[i] < 256
    {
      if i > 0 {
        assert low[i] == x[1..16][i - 1];
      }
    }
    hide Pow;
    ValueBound(low, 256);
    FirstLimb(low, x[..16]);
  }

  /** The second pass: every limb is below 256 but the lowest, which may exceed it by 4. */
  lemma SecondPassBound(x: seq<int>, y: seq<int>)
    requires |x| == LIMBS && IsDigits(x[1..16], 256) && 0 <= x[0] <= LARGEST_LIMB && 0 <= x[16] <= 3 && Reduced(x, y)
    ensures 0 <= y[0] <= 260 && 0 <= y[16] <= 3 && 0 <= Value(y) < P + 10
  {
    hide Pow, Eval;
    LowBelow(x, LARGEST_LIMB);
    assert TopOf(x) <= 4;
    LowBelow(y, 5);
    NextPrefix(y, 16);
    PowersOf256();
    assert y[..17] == y;
  }

  /** The final carry chain over all limbs. */
  method CarryAll(x: array<int>)
    requires x.Length == LIMBS && IsWide(x[..]) && Value(x[..]) < TWO_136
    modifies x
    ensures IsLimbs(x[..]) && Value(x[..]) == Value(old(x[..]))
  {
    ghost var was := x[..];
    var carry := 0;
    for i := 0 to LIMBS
      invariant 0 <= carry < 0x100_0000 && x[i..] == was[i..] && IsDigits(x[..i], 256)
      invariant Value(x[..i]) + Pow(256, i) * carry == Value(was[..i])
    {
      ghost var u := x[..];
      assert x[i] == was[i] by { assert x[i..][0] == was[i..][0]; }
      assert FitsU32(carry + x[i]);
      var v := x[i];
      x[i] := (carry + v) % 256;
      ghost var y := x[..];
      assert y[..i] == u[..i] && y[i + 1..] == u[i + 1..];
      assert u[i + 1..] == u[i..][1..] && was[i + 1..] == was[i..][1..];
      assert u[..i] == x[..i];
      PrefixDigits(u, y, i);
      CarryNext(u, y, i, Value(was[..i]), carry, v);
      NextPrefix(was, i);
      carry := (carry + v) / 256;
    }
    assert x[..] == x[..LIMBS] && was == was[..LIMBS];
    NoFinalCarry(x[..], Value(was), carry);
  }

  lemma NoFinalCarry(x: seq<int>, total: int, carry: int)
    requires IsLimbs(x) && 0 <= carry && Value(x) + Pow(256, 17) * carry == total < TWO_136
    ensures carry == 0 && Value(x) == total
  {
    PowersOf256();
    LimbsBelow(x);
  }

  /** h = h r mod p, up to less than ten. */
  method MulMod(h: array<int>, r: seq<int>)
    requires h.Length == LIMBS && IsLimbs(h[..]) && IsLimbs(r)
    modifies h
    ensures IsLimbs(h[..]) && Value(h[..]) < P + 10
    ensures Value(h[..]) % P == (Value(old(h[..])) * Value(r)) % P
  {
    hide Eval, Pow, F.Product;
    ghost var was := h[..];
    var x := Products(h[..], r);
    ghost var sums := x[..];
    Pass(x);
    ghost var once := x[..];
    FirstPassBound(sums, once);
    WideAgain(once);
    Pass(x);
    ghost var twice := x[..];
    SecondPassBound(once, twice);
    WideAgain(twice);
    CarryAll(x);
    ProductReduced(was, r, sums, once, twice);
    ghost var done := x[..];
    assert Value(done) == Value(twice);
    forall i | 0 <= i < LIMBS {
      h[i] := x[i];
    }
    assert h[..] == done;
  }

  lemma WideAgain(x: seq<int>)
    requires |x| == LIMBS && IsDigits(x[1..16], 256) && 0 <= x[0] <= LARGEST_LIMB && 0 <= x[16] <= 3
    ensures IsWide(x)
  {
    forall i | 0 <= i < LIMBS
      ensures 0 <= x[i] <= LARGEST_LIMB
    {
      if 1 <= i < 16 {
        assert x[i] == x[1..16][i - 1];
      }
    }
  }

  /** The value modulo p through the sums and both passes. */
  lemma ProductReduced(h: seq<int>, r: seq<int>, sums: seq<int>, once: seq<int>, twice: seq<int>)
    requires IsLimbs(h) && IsLimbs(r) && sums == F.Product(h, r, FOLD) && Reduced(sums, once) && Reduced(once, twice)
    ensures Value(twice) % P == (Value(h) * Value(r)) % P
  {
    hide Pow, Eval, F.Product;
    FoldingFactor();
    F.EvalProduct(h, r, FOLD, 256, P);
    M.Multiple(Value(once), Value(sums), 0 - TopOf(sums) / 4, P);
    M.Multiple(Value(twice), Value(once), 0 - TopOf(once) / 4, P);
  }

  // ---------------------------------------------------------------- the specification

  const CLAMP: nat := 0x0FFF_FFFC_0FFF_FFFC_0FFF_FFFC_0FFF_FFFF
  const CLAMP_BYTES: seq<int> := [255, 255, 255, 15, 252, 255, 255, 15, 252, 255, 255, 15, 252, 255, 255, 15]

  ghost predicate IsKey(key: seq<int>) {
    |key| == 32 && IsDigits(key, 256)
  }

  lemma ClampIsDigits()
    ensures IsDigits(CLAMP_BYTES, 256)
  {
  }

  /** The multiplier: the first half of the key, clamped. */
  function Multiplier(key: seq<int>): nat
    requires IsKey(key)
  {
    ValueBound(key[..16], 256);
    And(Value(key[..16]), CLAMP)
  }

  function Summand(key: seq<int>): nat
    requires IsKey(key)
  {
    ValueBound(key[16..], 256);
    Value(key[16..])
  }

  function FirstBlock(message: seq<int>): (b: seq<int>)
    ensures |b| <= 16
  {
    message[..if |message| < 16 then |message| else 16]
  }

  function RestBlocks(message: seq<int>): (m: seq<int>)
    ensures message != [] ==> |m| < |message|
  {
    message[if |message| < 16 then |message| else 16..]
  }

  function Blocks(message: seq<int>): nat
    decreases |message|
  {
    if message == [] then 0 else 1 + Blocks(RestBlocks(message))
  }

  /** A block with a one above its last byte. */
  function BlockNumber(b: seq<int>): int {
    Value(b) + Pow(256, |b|)
  }

  /** The blocks as coefficients of falling powers of r, the last one of r itself. */
  function Polynomial(message: seq<int>, r: nat): int
    decreases |message|
  {
    if message == [] then 0
    else BlockNumber(FirstBlock(message)) * Pow(r, Blocks(message)) + Polynomial(RestBlocks(message), r)
  }

  /** The tag as a number. */
  function TagNumber(message: seq<int>, key: seq<int>): nat
    requires IsKey(key)
  {
    (Polynomial(message, Multiplier(key)) % P + Summand(key)) % TWO_128
  }

  // ---------------------------------------------------------------- the key

  function ClampedLimbs(key: seq<int>): (r: seq<int>)
    requires IsKey(key)
    ensures |r| == LIMBS
  {
    ClampIsDigits();
    AndEach(key[..16], CLAMP_BYTES) + [0]
  }

  lemma FourDigits(d: seq<int>)
    requires |d| >= 4
    ensures Value(d) == d[0] + 256 * d[1] + 0x1_0000 * d[2] + 0x100_0000 * d[3] + 0x1_0000_0000 * Value(d[4..])
  {
    assert d[1..][1..] == d[2..] && d[2..][1..] == d[3..] && d[3..][1..] == d[4..];
    assert Value(d[1..]) == d[1] + 256 * Value(d[2..]);
    assert Value(d[2..]) == d[2] + 256 * Value(d[3..]);
    assert Value(d[3..]) == d[3] + 256 * Value(d[4..]);
  }

  lemma ClampValue()
    ensures Value(CLAMP_BYTES) == CLAMP && IsDigits(CLAMP_BYTES, 256)
  {
    hide Eval;
    var d := CLAMP_BYTES;
    var d4, d8, d12, d16 := d[4..], d[8..], d[12..], d[16..];
    FourDigits(d);
    FourDigits(d4);
    FourDigits(d8);
    FourDigits(d12);
    assert d4[4..] == d8 && d8[4..] == d12 && d12[4..] == [];
    NoDigits();
  }

  lemma NoDigits()
    ensures Value([]) == 0
  {
  }

  lemma TopZero(x: seq<int>)
    ensures Value(x + [0]) == Value(x)
  {
    ValueAppend(x, 0, 256);
    assert Pow(256, |x|) * 0 == 0;
  }

  lemma ClampedValue(key: seq<int>)
    requires IsKey(key)
    ensures IsLimbs(ClampedLimbs(key)) && Value(ClampedLimbs(key)) == Multiplier(key)
  {
    hide And, Eval;
    ClampValue();
    AndBytes(key[..16], CLAMP_BYTES);
    TopZero(AndEach(key[..16], CLAMP_BYTES));
    forall i | 0 <= i < 16
      ensures 0 <= AndEach(key[..16], CLAMP_BYTES)[i] < 256
    {
      ClampedLimb(key, i);
    }
  }

  /** Bytes 3, 7, 11 and 15 keep their low four bits, bytes 4, 8 and 12 lose their low two. */
  lemma ClampedLimb(key: seq<int>, i: nat)
    requires IsKey(key) && i < 16
    ensures var k := key[i];
      ClampedLimbs(key)[i] == if i % 4 == 3 then k % 16 else if i % 4 == 0 && i > 0 then k - k % 4 else k
    ensures 0 <= ClampedLimbs(key)[i] < 256
  {
    hide And;
    MaskByte(key[i]);
  }

  /** One limb under a mask. */
  method MaskLimb(r: array<int>, i: nat, m: nat)
    requires r.Length == LIMBS && i < LIMBS && 0 <= r[i]
    modifies r
    ensures r[..] == old(r[..])[i := And(old(r[i]), m)]
  {
    r[i] := And(r[i], m);
  }

  /** The seven limbs that clamping changes. */
  function SevenMasked(k: seq<int>): seq<int>
    requires |k| == LIMBS && IsDigits(k, 256)
  {
    k[3 := And(k[3], 15)][4 := And(k[4], 252)][7 := And(k[7], 15)][8 := And(k[8], 252)]
     [11 := And(k[11], 15)][12 := And(k[12], 252)][15 := And(k[15], 15)]
  }

  lemma ClampedFrom(key: seq<int>, k: seq<int>)
    requires IsKey(key) && k == key[..16] + [0]
    ensures IsDigits(k, 256) && SevenMasked(k) == ClampedLimbs(key)
  {
    hide And, Eval;
    forall i | 0 <= i < LIMBS
      ensures SevenMasked(k)[i] == ClampedLimbs(key)[i]
    {
      if i < 16 {
        MaskByte(key[i]);
      }
    }
  }

  method LoadMultiplier(key: seq<int>) returns (r: array<int>)
    requires IsKey(key)
    ensures fresh(r) && r.Length == LIMBS && r[..] == ClampedLimbs(key)
  {
    hide And, Eval, AndEach, ClampedLimbs;
    r := new int[LIMBS](_ => 0);
    for i := 0 to 16
      invariant r[..i] == key[..i] && r[16] == 0
    {
      r[i] := key[i];
    }
    ghost var k := r[..];
    assert k == key[..16] + [0];
    ClampedFrom(key, k);
    MaskLimb(r, 3, 15);
    MaskLimb(r, 4, 252);
    MaskLimb(r, 7, 15);
    MaskLimb(r, 8, 252);
    MaskLimb(r, 11, 15);
    MaskLimb(r, 12, 252);
    MaskLimb(r, 15, 15);
  }

  // ---------------------------------------------------------------- one block

  /** A block as limbs. */
  function BlockLimbs(b: seq<int>): (c: seq<int>)
    requires |b| <= 16 && IsDigits(b, 256)
    ensures IsLimbs(c)
  {
    b + [1] + seq(16 - |b|, i => 0)
  }

  lemma BlockValue(b: seq<int>)
    requires |b| <= 16 && IsDigits(b, 256)
    ensures Value(BlockLimbs(b)) == BlockNumber(b) && 0 <= BlockNumber(b) <= 2 * TWO_128
  {
    var zeros := seq(16 - |b|, i => 0);
    ValueAppend(b, 1, 256);
    EvalConcat(b + [1], zeros, 256);
    F.EvalZero(zeros, 256);
    ValueBound(b, 256);
    PowersOf256();
    Powers(|b|, 16);
  }

  lemma {:induction false} Powers(a: nat, b: nat)
    requires a <= b
    ensures 0 <= Pow(256, a) <= Pow(256, b)
    decreases b
  {
    if a < b {
      Powers(a, b - 1);
    } else if a > 0 {
      Powers(a - 1, a - 1);
    }
  }

  method LoadBlock(b: seq<int>) returns (c: array<int>)
    requires |b| <= 16 && IsDigits(b, 256)
    ensures fresh(c) && c.Length == LIMBS && c[..] == BlockLimbs(b)
  {
    c := new int[LIMBS](_ => 0);
    for i := 0 to |b|
      invariant forall k :: 0 <= k < LIMBS ==> c[k] == if k < i then b[k] else 0
    {
      c[i] := b[i];
    }
    c[|b|] := 1;
  }

  /** One block taken in: the accumulator goes to (h + n) r. */
  method Absorb(h: array<int>, b: seq<int>, r: seq<int>)
    requires h.Length == LIMBS && IsLimbs(h[..]) && Value(h[..]) < P + 10 && |b| <= 16 && IsDigits(b, 256) && IsLimbs(r)
    modifies h
    ensures IsLimbs(h[..]) && Value(h[..]) < P + 10
    ensures Value(h[..]) % P == ((Value(old(h[..])) + BlockNumber(b)) * Value(r)) % P
  {
    hide Eval, Pow, BlockLimbs, BlockNumber;
    LimbsBelow(h[..]);
    var c := LoadBlock(b);
    BlockValue(b);
    ghost var sum := Value(h[..]) + BlockNumber(b);
    Add(h, c[..]);
    M.Small(sum, TWO_136);
    MulMod(h, r);
  }

  // ---------------------------------------------------------------- the final step

  const MINUS_P: seq<int> := [5, 0, 0, 0, 0, 0, 0, 0, 0, 0, 0, 0, 0, 0, 0, 0, 252]

  /** 2^136 - p. */
  lemma MinusP()
    ensures IsLimbs(MINUS_P) && Value(MINUS_P) == TWO_136 - P
  {
    hide Eval, Pow;
    EndsValue(5, seq(15, i => 0), 252);
    assert MINUS_P == [5] + seq(15, i => 0) + [252];
    PowersOf256();
  }

  lemma EndsValue(a: int, zeros: seq<int>, b: int)
    requires forall i :: 0 <= i < |zeros| ==> zeros[i] == 0
    ensures Value([a] + zeros + [b]) == a + Pow(256, |zeros| + 1) * b
  {
    hide Eval, Pow;
    F.EvalZero(zeros, 256);
    EvalConcat([a], zeros, 256);
    F.EvalConstant([a], 256);
    ValueAppend([a] + zeros, b, 256);
  }

  /** The top bit of the difference tells whether the value was below p. */
  lemma TopBit(d: seq<int>, v: int)
    requires IsLimbs(d) && 0 <= v < P + 10 && Value(d) == (v + TWO_136 - P) % TWO_136
    ensures v < P ==> d[16] / 128 == 1
    ensures v >= P ==> d[16] / 128 == 0 && Value(d) == v - P
  {
    hide Eval;
    PowersOf256();
    ValueBound(d[..16], 256);
    NextPrefix(d, 16);
    assert d[..17] == d;
    if v < P {
      M.Small(v + TWO_136 - P, TWO_136);
    } else {
      M.Multiple(v + TWO_136 - P, v - P, 1, TWO_136);
      M.Small(v - P, TWO_136);
    }
  }

  lemma SelectLimb(h: int, g: int, bit: int)
    requires 0 <= h < 256 && 0 <= g < 256 && 0 <= bit <= 1
    ensures Xor(h, And(MaskOf(bit, 32), Xor(g, h))) == if bit == 1 then g else h
  {
    hide *;
    SmallPowers();
    WordPower();
    Selected(h, g, bit, 32);
  }

  lemma WordPower()
    ensures Pow(2, 32) >= 256
  {
    PowAdd(2, 8, 8);
    PowAdd(2, 16, 16);
  }

  /** The canonical residue, chosen by a mask between h and h - p. */
  method Freeze(h: array<int>)
    requires h.Length == LIMBS && IsLimbs(h[..]) && Value(h[..]) < P + 10
    modifies h
    ensures IsLimbs(h[..]) && Value(h[..]) == Value(old(h[..])) % P
  {
    hide Eval, Pow, Xor, And, MaskOf;
    ghost var v := Value(h[..]);
    LimbsBelow(h[..]);
    var g := h[..];
    MinusP();
    Add(h, MINUS_P);
    TopBit(h[..], v);
    ghost var d := h[..];
    var bit := h[16] / 128;
    var mask := MaskOf(bit, 32);
    for i := 0 to LIMBS
      invariant forall k :: 0 <= k < LIMBS ==> h[k] == if k < i && bit == 1 then g[k] else d[k]
    {
      SelectLimb(h[i], g[i], bit);
      h[i] := Xor(h[i], And(mask, Xor(g[i], h[i])));
    }
    assert h[..] == if bit == 1 then g else d;
    Residue(v);
  }

  lemma Residue(v: int)
    requires 0 <= v < P + 10
    ensures v % P == if v < P then v else v - P
  {
    if v < P {
      M.Small(v, P);
    } else {
      M.Multiple(v, v - P, 1, P);
      M.Small(v - P, P);
    }
  }

  // ---------------------------------------------------------------- the authenticator

  lemma BlockSplit(message: seq<int>)
    requires IsDigits(message, 256) && message != []
    ensures IsDigits(FirstBlock(message), 256) && IsDigits(RestBlocks(message), 256)
    ensures FirstBlock(message) + RestBlocks(message) == message
  {
  }

  /** Taking in a block is one step of evaluating the polynomial from the front. */
  lemma HornerStep(message: seq<int>, r: nat, h: int, h': int)
    requires message != [] && h' % P == ((h + BlockNumber(FirstBlock(message))) * r) % P
    ensures (h' * Pow(r, Blocks(RestBlocks(message))) + Polynomial(RestBlocks(message), r)) % P
         == (h * Pow(r, Blocks(message)) + Polynomial(message, r)) % P
  {
    var n, p, q := BlockNumber(FirstBlock(message)), Pow(r, Blocks(RestBlocks(message))), Polynomial(RestBlocks(message), r);
    assert Pow(r, Blocks(message)) == r * p;
    hide BlockNumber, Polynomial, Pow, Blocks;
    assert Polynomial(message, r) == n * (r * p) + q by { PolynomialNext(message, r); PowerNext(message, r); }
    M.Mul(h', (h + n) * r, p, p, P);
    M.Assoc(h + n, r, p);
    assert (h + n) * (r * p) == h * (r * p) + n * (r * p);
    M.Add(h' * p, ((h + n) * r) * p, q, q, P);
  }

  lemma PolynomialNext(message: seq<int>, r: nat)
    requires message != []
    ensures Polynomial(message, r)
         == BlockNumber(FirstBlock(message)) * Pow(r, Blocks(message)) + Polynomial(RestBlocks(message), r)
  {
  }

  lemma PowerNext(message: seq<int>, r: nat)
    requires message != []
    ensures Pow(r, Blocks(message)) == r * Pow(r, Blocks(RestBlocks(message)))
  {
  }

  lemma NoMessage(r: nat)
    ensures Blocks([]) == 0 && Polynomial([], r) == 0 && Pow(r, 0) == 1
  {
  }

  function SummandLimbs(key: seq<int>): (s: seq<int>)
    requires IsKey(key)
    ensures IsLimbs(s)
  {
    key[16..] + [0]
  }

  /** The first sixteen limbs of a sum are its remainder. */
  lemma LowBytes(h: seq<int>, total: int)
    requires IsLimbs(h) && Value(h) == total
    ensures Value(h[..16]) == total % TWO_128 && IsDigits(h[..16], 256)
  {
    PowersOf256();
    NextPrefix(h, 16);
    assert h[..17] == h;
    ValueBound(h[..16], 256);
    hide Eval, Pow;
    M.Multiple(total, Value(h[..16]), h[16], TWO_128);
    M.Small(Value(h[..16]), TWO_128);
  }

  /** The accumulator over all blocks. */
  method Accumulate(message: seq<int>, r: seq<int>) returns (h: array<int>)
    requires IsDigits(message, 256) && IsLimbs(r) && Value(r) >= 0
    ensures fresh(h) && h.Length == LIMBS && IsLimbs(h[..]) && Value(h[..]) < P + 10
    ensures Value(h[..]) % P == Polynomial(message, Value(r)) % P
  {
    h := new int[LIMBS](_ => 0);
    F.EvalZero(h[..], 256);
    var rest := message;
    hide *;
    NoMessage(Value(r));
    ghost var v := Value(r);
    while rest != []
      invariant fresh(h) && IsLimbs(h[..]) && Value(h[..]) < P + 10 && IsDigits(rest, 256)
      invariant (Value(h[..]) * Pow(v, Blocks(rest)) + Polynomial(rest, v)) % P == Polynomial(message, v) % P
      decreases |rest|
    {
      BlockSplit(rest);
      ghost var before := Value(h[..]);
      Absorb(h, FirstBlock(rest), r);
      HornerStep(rest, v, before, Value(h[..]));
      rest := RestBlocks(rest);
    }
  }

  /**
   Main result: for every message and key the tag is the polynomial of the blocks at the
   clamped multiplier modulo p, plus the second half of the key, modulo 2^128.
   */
  method Tag(message: seq<int>, key: seq<int>) returns (tag: seq<int>)
    requires IsDigits(message, 256) && IsKey(key)
    ensures |tag| == 16 && IsDigits(tag, 256) && Value(tag) == TagNumber(message, key)
  {
    hide *;
    var r := LoadMultiplier(key);
    ClampedValue(key);
    var h := Accumulate(message, r[..]);
    Freeze(h);
    ghost var frozen := Value(h[..]);
    SummandValue(key);
    Add(h, SummandLimbs(key));
    NoOverflow(Polynomial(message, Multiplier(key)), Summand(key));
    LowBytes(h[..], frozen + Summand(key));
    TagIs(message, key);
    LimbCount();
    tag := h[..16];
  }

  lemma LimbCount()
    ensures LIMBS == 17
  {
  }

  lemma NoOverflow(v: int, s: nat)
    requires s < TWO_128
    ensures 0 <= v % P + s && (v % P + s) % TWO_136 == v % P + s
  {
    M.Reduce(v, P);
    M.Small(v % P + s, TWO_136);
  }

  lemma SummandValue(key: seq<int>)
    requires IsKey(key)
    ensures Value(SummandLimbs(key)) == Summand(key) && 0 <= Summand(key) < TWO_128
  {
    TopZero(key[16..]);
    PowersOf256();
    ValueBound(key[16..], 256);
  }

  lemma TagIs(message: seq<int>, key: seq<int>)
    requires IsKey(key)
    ensures TagNumber(message, key) == (Polynomial(message, Multiplier(key)) % P + Summand(key)) % TWO_128
  {
  }
}
