/**
 X25519 (RFC 7748): the scalar multiplication with its masked, deferred swaps computes the
 Montgomery ladder of section 5, stated here as plain recursion over the bits of the scalar
 on integers modulo p = 2^255 - 19.
 */
module X25519 {
  import opened NttSpec
  import opened Digits
  import opened Masks
  import opened Field25519
  import PowerModulo
  import M = Modular

  // ---------------------------------------------------------------- the ladder

  /** Projective coordinates x : z of a point of the Montgomery curve. */
  datatype Point = Point(x: int, z: int)

  /** Two points whose difference is the base point. */
  datatype Pair = Pair(low: Point, high: Point)

  const A24: nat := 121_665

  function Double(p: Point): Point {
    var aa, bb := (p.x + p.z) * (p.x + p.z), (p.x - p.z) * (p.x - p.z);
    var e := aa - bb;
    Point((aa * bb) % P, (e * (aa + e * A24)) % P)
  }

  /** The sum of two points whose difference has the coordinate u. */
  function DifferentialSum(p: Point, q: Point, u: int): Point {
    var da, cb := (q.x - q.z) * (p.x + p.z), (q.x + q.z) * (p.x - p.z);
    Point(((da + cb) * (da + cb)) % P, (u * ((da - cb) * (da - cb))) % P)
  }

  function LadderStep(bit: nat, r: Pair, u: int): Pair {
    if bit == 0 then Pair(Double(r.low), DifferentialSum(r.low, r.high, u))
    else Pair(DifferentialSum(r.low, r.high, u), Double(r.high))
  }

  /** The multiples m and m + 1 of the point with coordinate u. */
  function Ladder(m: nat, u: int): Pair
    decreases m
  {
    if m == 0 then Pair(Point(1, 0), Point(u, 1)) else LadderStep(m % 2, Ladder(m / 2, u), u)
  }

  /** The coordinate of the multiple, as x / z by Fermat's little theorem. */
  function ScalarMultiple(k: nat, u: int): int {
    var r := Ladder(k, u).low;
    (r.x * Pow(r.z, INVERSE_EXPONENT)) % P
  }

  /** The order of the two points does not matter. */
  lemma SumSymmetric(p: Point, q: Point, u: int)
    ensures DifferentialSum(q, p, u) == DifferentialSum(p, q, u)
  {
    var da, cb := (q.x - q.z) * (p.x + p.z), (q.x + q.z) * (p.x - p.z);
    Products(p.x, p.z, q.x, q.z);
    assert (cb - da) * (cb - da) == (da - cb) * (da - cb);
  }

  lemma Products(a: int, b: int, c: int, d: int)
    ensures (a - b) * (c + d) == (c + d) * (a - b) && (a + b) * (c - d) == (c - d) * (a + b)
  {
  }

  // ---------------------------------------------------------------- the scalar

  ghost predicate IsBytes(b: seq<int>) {
    |b| == 32 && IsDigits(b, 256)
  }

  /** Clamping: the low three bits and the top bit cleared, bit 254 set. */
  function Clamped(key: seq<int>): (k: seq<int>)
    requires IsBytes(key)
    ensures IsBytes(k)
  {
    key[0 := key[0] - key[0] % 8][31 := key[31] % 64 + 64]
  }

  function Scalar(key: seq<int>): nat
    requires IsBytes(key)
  {
    ValueBound(Clamped(key), 256);
    Eval(Clamped(key), 256)
  }

  /** A clamped scalar is a multiple of eight between 2^254 and 2^255. */
  lemma ScalarRange(key: seq<int>)
    requires IsBytes(key)
    ensures Scalar(key) % 8 == 0 && Pow(2, 254) <= Scalar(key) < Pow(2, 255)
  {
    hide *;
    var k := Clamped(key);
    ClampedEnds(key);
    ValueAppend(k[..31], k[31], 256);
    ValueBound(k[..31], 256);
    TopByte();
    RangeFrom(Eval(k[..31], 256), Pow(256, 31), k[31]);
    EvalHead(k);
    MultipleOfEight(k[0], Eval(k[1..], 256));
    ScalarIs(key);
  }

  lemma ScalarIs(key: seq<int>)
    requires IsBytes(key)
    ensures Scalar(key) == Eval(Clamped(key), 256)
  {
  }

  lemma RangeFrom(low: int, p: int, top: int)
    requires 0 <= low < p && 64 <= top < 128
    ensures 64 * p <= low + p * top < 128 * p
  {
    M.ProductBound(64, p, top, p);
    M.ProductBound(top, p, 127, p);
  }

  lemma ClampedEnds(key: seq<int>)
    requires IsBytes(key)
    ensures var k := Clamped(key);
      && |k| == 32 && 64 <= k[31] < 128 && k[0] % 8 == 0
      && IsDigits(k[..31], 256) && |k[..31]| == 31 && k[..31] + [k[31]] == k
  {
  }

  lemma EvalHead(k: seq<int>)
    requires k != []
    ensures Eval(k, 256) == k[0] + 256 * Eval(k[1..], 256)
  {
  }

  lemma MultipleOfEight(a: int, b: int)
    requires a % 8 == 0
    ensures (a + 256 * b) % 8 == 0
  {
    M.Multiple(a + 256 * b, a, 32 * b, 8);
  }

  lemma TopByte()
    ensures Pow(2, 254) == 64 * Pow(256, 31) && Pow(2, 255) == 128 * Pow(256, 31) && Pow(256, 31) > 0
  {
    ShiftByBytes(31);
    assert Pow(2, 6) == 64 && Pow(2, 1) == 2;
    PowPositive(256, 31);
    hide Pow;
    PowAdd(2, 6, 248);
    PowAdd(2, 1, 254);
  }

  /** Bit t of a byte string. */
  function Bit(k: seq<int>, t: nat): (b: nat)
    requires IsBytes(k) && t < 256
    ensures b <= 1
  {
    PowPositive(2, t % 8);
    (k[t / 8] / Pow(2, t % 8)) % 2
  }

  /** It is bit t of the number. */
  lemma {:induction false} BitOf(k: seq<int>, t: nat)
    requires IsBytes(k) && t < 256
    ensures Pow(2, t) > 0 && Eval(k, 256) >= 0 && Bit(k, t) == (Eval(k, 256) / Pow(2, t)) % 2
  {
    PowPositive(2, t);
    ValueBound(k, 256);
    hide Pow, Eval;
    BitOfDigits(k, t / 8, t % 8);
  }

  lemma {:induction false} BitOfDigits(k: seq<int>, i: nat, s: nat)
    requires IsDigits(k, 256) && i < |k| && s < 8
    ensures 0 <= 8 * i + s && Pow(2, 8 * i + s) > 0 && Pow(2, s) > 0 && (k[i] / Pow(2, s)) % 2 == (Eval(k, 256) / Pow(2, 8 * i + s)) % 2
    decreases i
  {
    PowPositive(2, 8 * i + s);
    PowPositive(2, s);
    EvalHead(k);
    ValueBound(k[1..], 256);
    hide Eval;
    if i == 0 {
      LowBits(k[0], Eval(k[1..], 256), s);
    } else {
      BitOfDigits(k[1..], i - 1, s);
      HighBits(k[0], Eval(k[1..], 256), 8 * (i - 1) + s);
    }
  }

  lemma LowBits(b: nat, v: nat, s: nat)
    requires b < 256 && s < 8
    ensures Pow(2, s) > 0 && ((b + 256 * v) / Pow(2, s)) % 2 == (b / Pow(2, s)) % 2
  {
    PowPositive(2, s);
    SplitByte(s);
    LowBitsOf(b, v, Pow(2, s), Pow(2, 7 - s));
  }

  lemma SplitByte(s: nat)
    requires s < 8
    ensures 256 == Pow(2, s) * (2 * Pow(2, 7 - s))
  {
    EightBytes();
    PowAdd(2, s, 8 - s);
    assert Pow(2, 8 - s) == 2 * Pow(2, 7 - s);
  }

  lemma LowBitsOf(b: nat, v: nat, p: int, h: int)
    requires p > 0 && 256 == p * (2 * h)
    ensures ((b + 256 * v) / p) % 2 == (b / p) % 2
  {
    M.Assoc(p, 2 * h, v);
    QuotientAdds(b, 2 * h * v, p);
    M.Multiple(b / p + 2 * h * v, b / p, h * v, 2);
  }

  lemma QuotientAdds(b: int, q: int, p: int)
    requires p > 0
    ensures (b + p * q) / p == b / p + q
  {
    var d := (b + p * q) / p - b / p - q;
    assert p * d == b % p - (b + p * q) % p by {
      assert p * ((b + p * q) / p - b / p - q) == p * ((b + p * q) / p) - p * (b / p) - p * q;
    }
    M.Far(p, d);
  }

  lemma HighBits(b: nat, v: nat, s: nat)
    requires b < 256
    ensures Pow(2, s) > 0 && Pow(2, s + 8) > 0 && (b + 256 * v) / Pow(2, s + 8) == v / Pow(2, s)
  {
    PowPositive(2, s);
    PowPositive(2, s + 8);
    EightBytes();
    hide Pow;
    PowAdd(2, 8, s);
    var p := Pow(2, s);
    assert Pow(2, s + 8) == 256 * p;
    var q, r := v / p, v % p;
    assert v == p * q + r;
    assert b + 256 * v == (256 * p) * q + (b + 256 * r) by {
      M.Assoc(256, p, q);
    }
    assert 0 <= b + 256 * r < 256 * p;
    QuotientIs(b + 256 * v, 256 * p, q, b + 256 * r);
  }

  lemma QuotientIs(v: int, p: int, q: int, r: int)
    requires p > 0 && v == p * q + r && 0 <= r < p
    ensures v / p == q
  {
    var d := v / p - q;
    assert p * d == r - v % p by {
      assert p * (v / p - q) == p * (v / p) - p * q;
    }
    M.Far(p, d);
  }

  // ---------------------------------------------------------------- elements and integers

  /** x stands for the integer v modulo p, with tight limbs. */
  ghost predicate Is(x: Fe, v: int) {
    Tight(x) && Value(x) % P == v % P
  }

  /** The same with the limbs of a sum. */
  ghost predicate Near(x: Fe, v: int) {
    Loose(x) && Value(x) % P == v % P
  }

  lemma IsNear(x: Fe, v: int)
    requires Is(x, v)
    ensures |x| == 5 && Near(x, v) && IsWords(x)
  {
    TightIsWords(x);
    hide Tight, Loose, IsWords, Eval;
  }

  lemma SumIs(x: Fe, v: int, y: Fe, w: int)
    requires Is(x, v) && Is(y, w)
    ensures |x| == |y| == 5 && Near(Add(x, y), v + w)
  {
    AddExact(x, y);
    hide Loose, Eval, Add;
    M.Add(Value(x), v, Value(y), w, P);
  }

  lemma DifferenceIs(x: Fe, v: int, y: Fe, w: int)
    requires Near(x, v) && Near(y, w)
    ensures |x| == |y| == 5 && Is(Sub(x, y), v - w)
  {
    SubExact(x, y);
    hide Tight, Eval, Sub;
    M.Add(Value(x), v, Value(y), w, P);
  }

  lemma ProductIs(x: Fe, v: int, y: Fe, w: int)
    requires Near(x, v) && Near(y, w)
    ensures |x| == |y| == 5 && Is(Mul(x, y), v * w)
  {
    MulExact(x, y);
    hide Tight, Eval, Mul;
    M.Mul(Value(x), v, Value(y), w, P);
  }

  lemma ScaledIs(x: Fe, v: int, k: nat)
    requires Near(x, v) && k < 0x2_0000
    ensures |x| == 5 && Is(MulSmall(x, k), v * k)
  {
    MulSmallExact(x, k);
    hide Tight, Eval, MulSmall;
    M.Mul(Value(x), v, k, k, P);
  }

  lemma ReducedIs(x: Fe, v: int)
    requires Is(x, v)
    ensures Is(x, v % P)
  {
    M.Reduce(v, P);
  }

  ghost predicate IsPoint(x: Fe, z: Fe, p: Point) {
    Is(x, p.x) && Is(z, p.z)
  }

  // ---------------------------------------------------------------- one step

  /** Doubling, from the squares of the sum and the difference on. */
  method DoubleTail(aa: Fe, bb: Fe, ghost s: int, ghost d: int) returns (x: Fe, z: Fe)
    requires Is(aa, s) && Is(bb, d)
    ensures Is(x, (s * d) % P) && Is(z, ((s - d) * (s + (s - d) * A24)) % P)
  {
    ghost var v := s - d;
    hide *;
    IsNear(aa, s);
    IsNear(bb, d);
    DifferenceIs(aa, s, bb, d);
    var e := Sub(aa, bb);
    IsNear(e, v);
    ProductIs(aa, s, bb, d);
    x := Mul(aa, bb);
    ConstantFits();
    ScaledIs(e, v, A24);
    var scaled := MulSmall(e, A24);
    SumIs(aa, s, scaled, v * A24);
    ProductIs(e, v, Add(aa, scaled), s + v * A24);
    z := Mul(e, Add(aa, scaled));
    ReducedIs(x, s * d);
    ReducedIs(z, v * (s + v * A24));
  }

  lemma SquareIs(x: Fe)
    requires |x| == 5
    ensures Square(x) == Mul(x, x)
  {
  }

  lemma ConstantFits()
    ensures A24 < 0x2_0000
  {
  }

  lemma DoubleFrom(x: Fe, z: Fe, p: Point)
    requires var aa, bb := (p.x + p.z) * (p.x + p.z), (p.x - p.z) * (p.x - p.z);
      Is(x, (aa * bb) % P) && Is(z, ((aa - bb) * (aa + (aa - bb) * A24)) % P)
    ensures IsPoint(x, z, Double(p))
  {
    hide Is;
  }

  lemma NearLength(x: Fe, v: int)
    requires Near(x, v)
    ensures |x| == 5
  {
  }

  lemma SumFrom(x: Fe, z: Fe, p: Point, q: Point, u: int)
    requires var da, cb := (q.x - q.z) * (p.x + p.z), (q.x + q.z) * (p.x - p.z);
      Is(x, ((da + cb) * (da + cb)) % P) && Is(z, (u * ((da - cb) * (da - cb))) % P)
    ensures IsPoint(x, z, DifferentialSum(p, q, u))
  {
    hide Is;
  }

  lemma PointParts(x: Fe, z: Fe, p: Point)
    requires IsPoint(x, z, p)
    ensures Is(x, p.x) && Is(z, p.z)
  {
  }

  // ---------------------------------------------------------------- swaps

  ghost predicate IsU64s(a: Fe) {
    |a| == 5 && forall i :: 0 <= i < 5 ==> 0 <= a[i] < TWO_64
  }

  lemma WordPower()
    ensures Pow(2, 64) == TWO_64
  {
    EightBytes();
    ShiftByBytes(8);
  }

  lemma LimbSwapped(x: nat, y: nat, swap: nat)
    requires x < TWO_64 && y < TWO_64 && swap <= 1
    ensures var t := And(MaskOf(swap, 64), Xor(x, y));
      Xor(x, t) == (if swap == 1 then y else x) && Xor(y, t) == if swap == 1 then x else y
  {
    hide *;
    WordPower();
    Selected(x, y, swap, 64);
  }

  /** `Fe::cswap`: limbs exchanged under a mask. */
  method Swap(a: Fe, b: Fe, swap: nat) returns (c: Fe, d: Fe)
    requires IsU64s(a) && IsU64s(b) && swap <= 1
    ensures c == (if swap == 1 then b else a) && d == if swap == 1 then a else b
  {
    hide Xor, And, MaskOf;
    c, d := a, b;
    var mask := MaskOf(swap, 64);
    for i := 0 to 5
      invariant |c| == |d| == 5
      invariant forall k :: 0 <= k < 5 ==> c[k] == if k < i && swap == 1 then b[k] else a[k]
      invariant forall k :: 0 <= k < 5 ==> d[k] == if k < i && swap == 1 then a[k] else b[k]
    {
      LimbSwapped(a[i], b[i], swap);
      var t := And(mask, Xor(c[i], d[i]));
      c := c[i := Xor(c[i], t)];
      d := d[i := Xor(d[i], t)];
    }
  }

  lemma IsU64(x: Fe, v: int)
    requires Is(x, v)
    ensures IsU64s(x)
  {
  }

  function Swapped(r: Pair, swap: nat): Pair {
    if swap == 1 then Pair(r.high, r.low) else r
  }

  /** A turn on the swapped pair gives the swapped pair of the ladder step. */
  lemma TurnIsStep(r: Pair, bit: nat, u: int)
    requires bit <= 1
    ensures var s := Swapped(r, bit);
      Pair(Double(s.low), DifferentialSum(s.low, s.high, u)) == Swapped(LadderStep(bit, r, u), bit)
  {
    SumSymmetric(r.low, r.high, u);
    hide Double, DifferentialSum;
  }

  lemma SwapTwice(r: Pair, a: nat, b: nat)
    requires a <= 1 && b <= 1
    ensures Swapped(Swapped(r, a), Xor(a, b)) == Swapped(r, b) && Xor(a, b) <= 1
  {
    assert Xor(0, 0) == 0 && Xor(1, 1) == 0 && Xor(0, 1) == 1 && Xor(1, 0) == 1;
  }

  // ---------------------------------------------------------------- the points of the loop

  lemma StartPoints(x1: Fe, u: int)
    requires Is(x1, u)
    ensures IsPoint([1, 0, 0, 0, 0], [0, 0, 0, 0, 0], Ladder(0, u).low) && IsPoint(x1, [1, 0, 0, 0, 0], Ladder(0, u).high)
  {
    ValueIs([1, 0, 0, 0, 0]);
    ValueIs([0, 0, 0, 0, 0]);
    hide Eval;
  }

  /** The two points of the loop; the first is doubled, the second replaced by the sum. */
  class Coordinates {
    var x2: Fe
    var z2: Fe
    var x3: Fe
    var z3: Fe

    ghost predicate Stands(r: Pair)
      reads this
    {
      IsPoint(x2, z2, r.low) && IsPoint(x3, z3, r.high)
    }

    /** The point at infinity and the point itself. */
    constructor (x1: Fe, ghost u: int)
      requires Is(x1, u)
      ensures Stands(Ladder(0, u))
    {
      StartPoints(x1, u);
      x2 := [1, 0, 0, 0, 0];
      z2 := [0, 0, 0, 0, 0];
      x3 := x1;
      z3 := [1, 0, 0, 0, 0];
    }

    /** Doubling of the first point. */
    method DoublePoint(a: Fe, b: Fe, ghost p: Point)
      requires Near(a, p.x + p.z) && Is(b, p.x - p.z)
      modifies this`x2, this`z2
      ensures IsPoint(x2, z2, Double(p))
    {
      ghost var sum, diff := p.x + p.z, p.x - p.z;
      hide *;
      IsNear(b, diff);
      ProductIs(a, sum, a, sum);
      var aa := Square(a);
      SquareIs(a);
      ProductIs(b, diff, b, diff);
      var bb := Square(b);
      SquareIs(b);
      x2, z2 := DoubleTail(aa, bb, sum * sum, diff * diff);
      DoubleFrom(x2, z2, p);
    }

    /** Differential addition. */
    method AddPoints(x1: Fe, a: Fe, b: Fe, c: Fe, d: Fe, ghost p: Point, ghost q: Point, ghost u: int)
      requires Is(x1, u) && Near(a, p.x + p.z) && Is(b, p.x - p.z) && Near(c, q.x + q.z) && Is(d, q.x - q.z)
      modifies this`x3, this`z3
      ensures IsPoint(x3, z3, DifferentialSum(p, q, u))
    {
      ghost var da', cb' := (q.x - q.z) * (p.x + p.z), (q.x + q.z) * (p.x - p.z);
      hide *;
      IsNear(b, p.x - p.z);
      IsNear(d, q.x - q.z);
      IsNear(x1, u);
      ProductIs(d, q.x - q.z, a, p.x + p.z);
      var da := Mul(d, a);
      ProductIs(c, q.x + q.z, b, p.x - p.z);
      var cb := Mul(c, b);
      SumIs(da, da', cb, cb');
      NearLength(Add(da, cb), da' + cb');
      ProductIs(Add(da, cb), da' + cb', Add(da, cb), da' + cb');
      x3 := Square(Add(da, cb));
      SquareIs(Add(da, cb));
      IsNear(da, da');
      IsNear(cb, cb');
      DifferenceIs(da, da', cb, cb');
      var e := Sub(da, cb);
      IsNear(e, da' - cb');
      ProductIs(e, da' - cb', e, da' - cb');
      var ee := Square(e);
      SquareIs(e);
      IsNear(ee, (da' - cb') * (da' - cb'));
      ProductIs(x1, u, ee, (da' - cb') * (da' - cb'));
      z3 := Mul(x1, ee);
      ReducedIs(x3, (da' + cb') * (da' + cb'));
      ReducedIs(z3, u * ((da' - cb') * (da' - cb')));
      SumFrom(x3, z3, p, q, u);
    }

    /** The body of the loop after the swap: the first point doubled, the second replaced by the sum. */
    method Turn(x1: Fe, ghost p: Point, ghost q: Point, ghost u: int)
      requires Is(x1, u) && IsPoint(x2, z2, p) && IsPoint(x3, z3, q)
      modifies this
      ensures IsPoint(x2, z2, Double(p)) && IsPoint(x3, z3, DifferentialSum(p, q, u))
    {
      hide *;
      PointParts(x2, z2, p);
      PointParts(x3, z3, q);
      SumIs(x2, p.x, z2, p.z);
      var a := Add(x2, z2);
      IsNear(x2, p.x);
      IsNear(z2, p.z);
      DifferenceIs(x2, p.x, z2, p.z);
      var b := Sub(x2, z2);
      SumIs(x3, q.x, z3, q.z);
      var c := Add(x3, z3);
      IsNear(x3, q.x);
      IsNear(z3, q.z);
      DifferenceIs(x3, q.x, z3, q.z);
      var d := Sub(x3, z3);
      AddPoints(x1, a, b, c, d, p, q, u);
      DoublePoint(a, b, p);
    }

    /** Both coordinates under the same mask. */
    method SwapPoints(swap: nat, ghost r: Pair)
      requires Stands(r) && swap <= 1
      modifies this
      ensures Stands(Swapped(r, swap))
    {
      hide Is, IsU64s;
      IsU64(x2, r.low.x);
      IsU64(z2, r.low.z);
      IsU64(x3, r.high.x);
      IsU64(z3, r.high.z);
      x2, x3 := Swap(x2, x3, swap);
      z2, z3 := Swap(z2, z3, swap);
    }

    /** One turn of the loop for one bit: swap, then step. */
    method OneBit(x1: Fe, swap: nat, bit: nat, ghost r: Pair, ghost u: int)
      requires Is(x1, u) && Stands(Swapped(r, swap)) && swap <= 1 && bit <= 1
      modifies this
      ensures Stands(Swapped(LadderStep(bit, r, u), bit))
    {
      hide *;
      SwapTwice(r, swap, bit);
      SwapPoints(Xor(swap, bit), Swapped(r, swap));
      ghost var t := Swapped(r, bit);
      StandsFor(this, t);
      Turn(x1, t.low, t.high, u);
      StandsFor(this, Pair(Double(t.low), DifferentialSum(t.low, t.high, u)));
      TurnIsStep(r, bit, u);
    }
  }

  lemma StandsFor(c: Coordinates, r: Pair)
    ensures c.Stands(r) <==> IsPoint(c.x2, c.z2, r.low) && IsPoint(c.x3, c.z3, r.high)
  {
    hide IsPoint;
  }

  // ---------------------------------------------------------------- the loop

  /** The leading bits of the scalar, down to bit t. */
  function Leading(k: nat, t: nat): (m: nat)
  {
    PowPositive(2, t);
    k / Pow(2, t)
  }

  lemma LeadingNext(k: nat, t: nat)
    ensures Leading(k, t) == 2 * Leading(k, t + 1) + Leading(k, t) % 2
  {
    PowPositive(2, t);
    var p := Pow(2, t);
    assert Pow(2, t + 1) == 2 * p;
    hide Pow;
    HalfQuotient(k, p);
  }

  lemma HalfQuotient(k: nat, p: nat)
    requires p > 0
    ensures k / (2 * p) == (k / p) / 2
  {
    var q, r := k / p, k % p;
    var h, b := q / 2, q % 2;
    assert k == p * q + r && q == 2 * h + b;
    assert p * (2 * h + b) == (2 * p) * h + p * b;
    M.ProductBound(p, b, p, 1);
    QuotientIs(k, 2 * p, h, p * b + r);
  }

  lemma LadderNext(k: nat, t: nat, u: int)
    requires Leading(k, t) > 0
    ensures Ladder(Leading(k, t), u) == LadderStep(Leading(k, t) % 2, Ladder(Leading(k, t + 1), u), u)
  {
    hide Leading, LadderStep;
    LeadingNext(k, t);
  }

  lemma LeadingPositive(key: seq<int>, t: nat)
    requires IsBytes(key) && t <= 254
    ensures Leading(Scalar(key), t) > 0 && Leading(Scalar(key), 255) == 0
  {
    hide Scalar;
    ScalarRange(key);
    PowPositive(2, t);
    PowPositive(2, 255);
    PowMonotone(t, 254);
    hide Pow;
    AtLeastOnce(Scalar(key), Pow(2, t));
    QuotientIs(Scalar(key), Pow(2, 255), 0, Scalar(key));
  }

  lemma AtLeastOnce(k: nat, p: nat)
    requires 0 < p <= k
    ensures k / p > 0
  {
    QuotientAdds(k - p, 1, p);
  }

  lemma {:induction false} PowMonotone(a: nat, b: nat)
    requires a <= b
    ensures Pow(2, a) <= Pow(2, b)
    decreases b
  {
    PowPositive(2, b);
    if a < b {
      PowPositive(2, b - 1);
      PowMonotone(a, b - 1);
    }
  }

  lemma BitIs(key: seq<int>, t: nat)
    requires IsBytes(key) && t < 256
    ensures Bit(Clamped(key), t) == Leading(Scalar(key), t) % 2
  {
    hide Clamped, Eval, Pow;
    BitOf(Clamped(key), t);
    ScalarIs(key);
  }

  lemma NoSwap(r: Pair)
    ensures Swapped(r, 0) == r
  {
  }

  /** The loop over the bits 254 down to 0. */
  method LadderLoop(key: seq<int>, x1: Fe, ghost u: int) returns (f: Coordinates)
    requires IsBytes(key) && Is(x1, u)
    ensures fresh(f) && f.Stands(Ladder(Scalar(key), u))
  {
    var k := Clamped(key);
    hide *;
    f := new Coordinates(x1, u);
    LeadingPositive(key, 254);
    var swap: nat := 0;
    NoSwap(Ladder(0, u));
    var t := 255;
    while t > 0
      invariant 0 <= t <= 255 && swap <= 1 && fresh(f) && f.Stands(Swapped(Ladder(Leading(Scalar(key), t), u), swap))
      decreases t
    {
      t := t - 1;
      LeadingPositive(key, t);
      LadderNext(Scalar(key), t, u);
      BitIs(key, t);
      var bit := Bit(k, t);
      f.OneBit(x1, swap, bit, Ladder(Leading(Scalar(key), t + 1), u), u);
      swap := bit;
    }
    WholeScalar(Scalar(key));
    SwapBack(Ladder(Scalar(key), u), swap);
    f.SwapPoints(swap, Swapped(Ladder(Scalar(key), u), swap));
  }

  lemma WholeScalar(k: nat)
    ensures Leading(k, 0) == k
  {
  }

  lemma SwapBack(r: Pair, swap: nat)
    requires swap <= 1
    ensures Swapped(Swapped(r, swap), swap) == r
  {
  }

  // ---------------------------------------------------------------- the result

  /** The coordinate that 32 bytes stand for: the top bit is ignored. */
  function Coordinate(bytes: seq<int>): (u: int)
    requires IsBytes(bytes)
    ensures 0 <= u
  {
    ValueBound(bytes, 256);
    Eval(bytes, 256) % TWO_255
  }

  lemma CoordinateRead(bytes: seq<int>)
    requires IsBytes(bytes)
    ensures Is(FromBytes(bytes), Coordinate(bytes))
  {
    hide Eval, FromBytes, Tight;
    FromBytesExact(bytes);
  }

  lemma InverseIs(r: Fe, z: Fe, v: int)
    requires Is(z, v) && IsPower(r, z, INVERSE_EXPONENT)
    ensures Is(r, Pow(v, INVERSE_EXPONENT))
  {
    hide Eval, Pow, Tight;
    PowerModulo.PowCongruent(Value(z), v, INVERSE_EXPONENT, P);
  }

  /**
   Main result: for every scalar and coordinate, the bytes of the result are the residue in
   [0, p) of the ladder's coordinate x / z.
   */
  method ScalarMult(key: seq<int>, bytes: seq<int>) returns (out: seq<int>)
    requires IsBytes(key) && IsBytes(bytes)
    ensures IsBytes(out) && Eval(out, 256) == ScalarMultiple(Scalar(key), Coordinate(bytes))
  {
    hide *;
    BytesShape(key);
    BytesShape(bytes);
    var x1 := ReadBytes(bytes);
    CoordinateRead(bytes);
    ghost var u, r := Coordinate(bytes), Ladder(Scalar(key), Coordinate(bytes)).low;
    var f := LadderLoop(key, x1, u);
    StandsFor(f, Ladder(Scalar(key), u));
    PointParts(f.x2, f.z2, r);
    IsTight(f.z2, r.z);
    var inverse := Invert(f.z2);
    InverseIs(inverse, f.z2, r.z);
    IsNear(f.x2, r.x);
    IsNear(inverse, Pow(r.z, INVERSE_EXPONENT));
    ProductIs(f.x2, r.x, inverse, Pow(r.z, INVERSE_EXPONENT));
    var product := Mul(f.x2, inverse);
    IsNear(product, r.x * Pow(r.z, INVERSE_EXPONENT));
    out := WriteBytes(product);
    ToBytesExact(product);
    ResultIs(out, product, Scalar(key), u);
  }

  lemma IsTight(x: Fe, v: int)
    requires Is(x, v)
    ensures Tight(x)
  {
    hide Tight;
  }

  lemma BytesShape(b: seq<int>)
    requires IsBytes(b)
    ensures |b| == 32 && IsDigits(b, 256)
  {
  }

  lemma ResultIs(out: seq<int>, product: Fe, k: nat, u: int)
    requires |out| == 32 && IsDigits(out, 256) && Eval(out, 256) == Value(product) % P
    requires var r := Ladder(k, u).low; Is(product, r.x * Pow(r.z, INVERSE_EXPONENT))
    ensures IsBytes(out) && Eval(out, 256) == ScalarMultiple(k, u)
  {
    hide Eval, Pow, Ladder, Tight;
  }
}
