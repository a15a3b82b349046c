/**
 The bit packers of ML-DSA: fixed-width values, least significant bit first, through a
 64-bit accumulator. In positional terms both directions change the base of one number:
 base 2^bits on the side of the values, base 256 on the side of the bytes.
 */
module BitPacking {
  import opened NttSpec
  import opened Digits
  import M = Modular

  /** The accumulator of `pack_bits` is a u64. */
  predicate FitsU64(x: int) {
    0 <= x < 0x1_0000_0000_0000_0000
  }

  lemma {:induction false} PowMonotone(a: nat, b: nat)
    requires a <= b
    ensures 1 <= Pow(2, a) <= Pow(2, b)
    decreases b
  {
    PowPositive(2, a);
    if a < b {
      PowMonotone(a, b - 1);
    }
  }

  lemma TwoTo64()
    ensures Pow(2, 64) == 0x1_0000_0000_0000_0000
  {
    TwoTo8();
    hide Pow;
    PowAdd(2, 8, 8);
    PowAdd(2, 16, 16);
    PowAdd(2, 32, 32);
  }

  lemma AccumulatorFits(acc: nat, n: nat)
    requires acc < Pow(2, n) && n <= 64
    ensures FitsU64(acc)
  {
    PowMonotone(n, 64);
    TwoTo64();
  }

  /** v placed above acc: the accumulator after one `acc |= v << n`. */
  lemma Push(acc: nat, n: nat, v: nat, bits: nat)
    requires acc < Pow(2, n) && v < Pow(2, bits)
    ensures 0 <= v * Pow(2, n) && Or(acc, v * Pow(2, n)) == acc + v * Pow(2, n) < Pow(2, n + bits)
  {
    hide Pow, Or;
    OrDisjoint(acc, v, n);
    PowAdd(2, n, bits);
    PowPositive(2, n);
    StackBound(acc, v, Pow(2, n), Pow(2, bits));
  }

  lemma StackBound(acc: int, v: int, p: int, q: int)
    requires 0 <= acc < p && 0 <= v < q
    ensures 0 <= v * p && acc + v * p < p * q
  {
    M.ProductBound(v, p, q - 1, p);
    assert (q - 1) * p == p * q - p;
  }

  /** Taking the low k bits off an accumulator of n bits. */
  lemma Pop(acc: nat, n: nat, k: nat)
    requires acc < Pow(2, n) && k <= n
    ensures Pow(2, k) > 0
    ensures acc == acc % Pow(2, k) + Pow(2, k) * (acc / Pow(2, k))
    ensures 0 <= acc % Pow(2, k) < Pow(2, k) && 0 <= acc / Pow(2, k) < Pow(2, n - k)
  {
    PowPositive(2, k);
    PowPositive(2, n - k);
    PowAdd(2, k, n - k);
    hide Pow;
    M.Reduce(acc, Pow(2, k));
    DigitBound(acc, Pow(2, k), Pow(2, n - k));
  }

  /** Invariant of both loops: `value` is split between finished digits and the accumulator. */
  ghost predicate Carried(value: int, done: seq<int>, base: int, weight: int, acc: int) {
    value == Eval(done, base) + weight * acc
  }

  /** The byte string of the packed values. */
  function Packed(vals: seq<int>, bits: nat): (out: seq<int>)
    ensures |out| == (|vals| * bits) / 8 && IsDigits(out, 256)
  {
    OfValueIsDigits(Eval(vals, Pow(2, bits)), (|vals| * bits) / 8, 256);
    OfValue(Eval(vals, Pow(2, bits)), (|vals| * bits) / 8, 256)
  }

  /** The values read back from a byte string. */
  function Unpacked(data: seq<int>, bits: nat, count: nat): (vals: seq<int>)
    ensures |vals| == count && IsDigits(vals, Pow(2, bits))
  {
    PowPositive(2, bits);
    OfValueIsDigits(Eval(data, 256), count, Pow(2, bits));
    OfValue(Eval(data, 256), count, Pow(2, bits))
  }

  lemma WholeBytes(n: nat, bits: nat, size: nat)
    requires n * bits == 8 * size
    ensures Pow(256, size) == Pow(Pow(2, bits), n)
  {
    TwoTo8();
    hide Pow;
    PowPow(2, 8, size);
    PowPow(2, bits, n);
    assert bits * n == n * bits;
  }

  /** Unpacking undoes packing, for every width and every whole number of bytes. */
  lemma UnpackOfPack(vals: seq<int>, bits: nat)
    requires IsDigits(vals, Pow(2, bits)) && (|vals| * bits) % 8 == 0
    ensures Unpacked(Packed(vals, bits), bits, |vals|) == vals
  {
    hide Pow, Eval, OfValue;
    PowPositive(2, bits);
    var size := (|vals| * bits) / 8;
    WholeBytes(|vals|, bits, size);
    ValueBound(vals, Pow(2, bits));
    ValueOfValue(Eval(vals, Pow(2, bits)), size, 256);
    OfValueOfDigits(vals, Pow(2, bits));
  }

  /** Packing undoes unpacking: every byte string of the right length is a packed one. */
  lemma PackOfUnpack(data: seq<int>, bits: nat, count: nat)
    requires IsDigits(data, 256) && count * bits == 8 * |data|
    ensures Packed(Unpacked(data, bits, count), bits) == data
  {
    hide Pow, Eval, OfValue;
    PowPositive(2, bits);
    WholeBytes(count, bits, |data|);
    ValueBound(data, 256);
    ValueOfValue(Eval(data, 256), count, Pow(2, bits));
    OfValueOfDigits(data, 256);
  }

  method PackBits(vals: seq<int>, bits: nat) returns (out: seq<int>)
    requires 1 <= bits <= 32 && IsDigits(vals, Pow(2, bits))
    ensures |out| == (|vals| * bits) / 8 && IsDigits(out, 256)
    ensures Pow(256, |out|) > 0 && Eval(out, 256) == Eval(vals, Pow(2, bits)) % Pow(256, |out|)
    ensures (|vals| * bits) % 8 == 0 ==> out == Packed(vals, bits)
  {
    out := [];
    var acc: nat, accBits: nat := 0, 0;
    for i := 0 to |vals|
      invariant accBits < 8 && acc < Pow(2, accBits) && IsDigits(out, 256)
      invariant 8 * |out| + accBits == i * bits
      invariant Carried(Eval(vals[..i], Pow(2, bits)), out, 256, Pow(256, |out|), acc)
    {
      out, acc, accBits := PackOne(vals, i, bits, out, acc, accBits);
    }
    assert vals[..|vals|] == vals;
    assert |vals| * bits == 8 * |out| + accBits;
    Leftover(Eval(vals, Pow(2, bits)), out, acc, accBits);
    if (|vals| * bits) % 8 == 0 {
      assert accBits == 0 && acc == 0;
      OfValueOfDigits(out, 256);
    }
  }

  lemma Leftover(value: int, out: seq<int>, acc: nat, n: nat)
    requires IsDigits(out, 256) && Carried(value, out, 256, Pow(256, |out|), acc)
    ensures Pow(256, |out|) > 0 && Eval(out, 256) == value % Pow(256, |out|)
  {
    ValueBound(out, 256);
    PowPositive(256, |out|);
    M.Multiple(value, Eval(out, 256), acc, Pow(256, |out|));
    M.Small(Eval(out, 256), Pow(256, |out|));
  }

  lemma ByteWeight(out: seq<int>, n: nat, bits: nat, i: nat)
    requires 8 * |out| + n == i * bits
    ensures Pow(256, |out|) * Pow(2, n) == Pow(Pow(2, bits), i)
  {
    TwoTo8();
    hide Pow;
    PowPow(2, 8, |out|);
    PowAdd(2, 8 * |out|, n);
    PowPow(2, bits, i);
    assert bits * i == i * bits;
  }

  /** One value through the accumulator: the body of the packing loop. */
  method PackOne(vals: seq<int>, i: nat, bits: nat, out0: seq<int>, acc0: nat, accBits0: nat)
    returns (out: seq<int>, acc: nat, accBits: nat)
    requires 1 <= bits <= 32 && i < |vals| && IsDigits(vals, Pow(2, bits))
    requires accBits0 < 8 && acc0 < Pow(2, accBits0) && IsDigits(out0, 256) && 8 * |out0| + accBits0 == i * bits
    requires Carried(Eval(vals[..i], Pow(2, bits)), out0, 256, Pow(256, |out0|), acc0)
    ensures accBits < 8 && acc < Pow(2, accBits) && IsDigits(out, 256)
    ensures 8 * |out| + accBits == (i + 1) * bits
    ensures Carried(Eval(vals[..i + 1], Pow(2, bits)), out, 256, Pow(256, |out|), acc)
  {
    hide Pow, Eval, Or;
    var v := vals[i];
    Push(acc0, accBits0, v, bits);
    PushCarried(vals, i, bits, out0, acc0, accBits0);
    out := out0;
    acc := Or(acc0, v * Pow(2, accBits0));
    accBits := accBits0 + bits;
    AccumulatorFits(acc, accBits);
    while accBits >= 8
      invariant accBits <= 40 && acc < Pow(2, accBits) && IsDigits(out, 256)
      invariant 8 * |out| + accBits == (i + 1) * bits
      invariant Carried(Eval(vals[..i + 1], Pow(2, bits)), out, 256, Pow(256, |out|), acc)
    {
      Pop(acc, accBits, 8);
      TwoTo8();
      PopCarried(Eval(vals[..i + 1], Pow(2, bits)), out, acc);
      out := out + [acc % 256];
      acc := acc / 256;
      accBits := accBits - 8;
    }
  }

  lemma TwoTo8()
    ensures Pow(2, 8) == 256
  {
  }

  lemma PushCarried(vals: seq<int>, i: nat, bits: nat, out: seq<int>, acc: nat, n: nat)
    requires i < |vals| && 8 * |out| + n == i * bits
    requires Carried(Eval(vals[..i], Pow(2, bits)), out, 256, Pow(256, |out|), acc)
    ensures (i + 1) * bits == i * bits + bits
    ensures Carried(Eval(vals[..i + 1], Pow(2, bits)), out, 256, Pow(256, |out|), acc + vals[i] * Pow(2, n))
  {
    hide Pow, Eval;
    assert (i + 1) * bits == i * bits + bits;
    assert vals[..i + 1] == vals[..i] + [vals[i]];
    ValueAppend(vals[..i], vals[i], Pow(2, bits));
    ByteWeight(out, n, bits, i);
    var w, p, v := Pow(256, |out|), Pow(2, n), vals[i];
    assert w * (acc + v * p) == w * acc + (w * p) * v by {
      Stack(w, acc, v, p);
    }
  }

  lemma PopCarried(value: int, out: seq<int>, acc: nat)
    requires Carried(value, out, 256, Pow(256, |out|), acc)
    ensures Carried(value, out + [acc % 256], 256, Pow(256, |out| + 1), acc / 256)
  {
    hide Pow, Eval;
    ValueAppend(out, acc % 256, 256);
    PowNext(256, |out|);
    Regroup(Pow(256, |out|), acc % 256, 256, acc / 256);
  }

  method UnpackBits(data: seq<int>, bits: nat, count: nat) returns (vals: seq<int>)
    requires 1 <= bits <= 32 && IsDigits(data, 256) && bits * count <= 8 * |data|
    ensures |vals| == count && IsDigits(vals, Pow(2, bits))
    ensures bits * count == 8 * |data| ==> vals == Unpacked(data, bits, count)
  {
    vals := [];
    var acc: nat, accBits: nat, di: nat := 0, 0, 0;
    for i := 0 to count
      invariant |vals| == i && IsDigits(vals, Pow(2, bits))
      invariant accBits < 8 && acc < Pow(2, accBits) && di <= |data| && bits * i + accBits == 8 * di
      invariant Carried(Eval(data[..di], 256), vals, Pow(2, bits), Pow(Pow(2, bits), i), acc)
    {
      vals, acc, accBits, di := UnpackOne(data, bits, count, vals, acc, accBits, di);
    }
    if bits * count == 8 * |data| {
      assert di == |data| && accBits == 0 && acc == 0;
      assert data[..di] == data;
      PowPositive(2, bits);
      OfValueOfDigits(vals, Pow(2, bits));
    }
  }

  lemma MoreBytes(bits: nat, i: nat, count: nat, n: nat, di: nat, size: nat)
    requires i < count && bits * count <= 8 * size && bits * i + n == 8 * di && n < bits
    ensures di < size
  {
    assert bits * count == bits * i + bits * (count - i);
    assert bits * (count - i) >= bits by { M.ProductBound(bits, 1, bits, count - i); }
  }

  /** One value out of the accumulator: the body of the unpacking loop. */
  method UnpackOne(data: seq<int>, bits: nat, ghost count: nat, vals0: seq<int>, acc0: nat, accBits0: nat, di0: nat)
    returns (vals: seq<int>, acc: nat, accBits: nat, di: nat)
    requires 1 <= bits <= 32 && IsDigits(data, 256) && bits * count <= 8 * |data| && |vals0| < count
    requires IsDigits(vals0, Pow(2, bits)) && accBits0 < 8 && acc0 < Pow(2, accBits0)
    requires di0 <= |data| && bits * |vals0| + accBits0 == 8 * di0
    requires Carried(Eval(data[..di0], 256), vals0, Pow(2, bits), Pow(Pow(2, bits), |vals0|), acc0)
    ensures |vals| == |vals0| + 1 && IsDigits(vals, Pow(2, bits))
    ensures accBits < 8 && acc < Pow(2, accBits) && di <= |data| && bits * |vals| + accBits == 8 * di
    ensures Carried(Eval(data[..di], 256), vals, Pow(2, bits), Pow(Pow(2, bits), |vals|), acc)
  {
    hide Pow, Eval, Or;
    acc, accBits, di := acc0, accBits0, di0;
    while accBits < bits
      invariant accBits <= bits + 7 && acc < Pow(2, accBits) && di <= |data| && bits * |vals0| + accBits == 8 * di
      invariant Carried(Eval(data[..di], 256), vals0, Pow(2, bits), Pow(Pow(2, bits), |vals0|), acc)
      decreases bits + 7 - accBits
    {
      MoreBytes(bits, |vals0|, count, accBits, di, |data|);
      TwoTo8();
      Push(acc, accBits, data[di], 8);
      TakeByte(data, di, bits, vals0, acc, accBits);
      acc := Or(acc, data[di] * Pow(2, accBits));
      di := di + 1;
      accBits := accBits + 8;
      AccumulatorFits(acc, accBits);
    }
    Pop(acc, accBits, bits);
    GiveValue(Eval(data[..di], 256), bits, vals0, acc);
    var unit := Pow(2, bits);
    vals := vals0 + [acc % unit];
    acc := acc / unit;
    accBits := accBits - bits;
    NextMultiple(bits, |vals0|);
  }

  lemma NextMultiple(b: nat, i: nat)
    ensures b * (i + 1) == b * i + b
  {
  }

  lemma TakeByte(data: seq<int>, di: nat, bits: nat, vals: seq<int>, acc: nat, n: nat)
    requires di < |data| && bits * |vals| + n == 8 * di
    requires Carried(Eval(data[..di], 256), vals, Pow(2, bits), Pow(Pow(2, bits), |vals|), acc)
    ensures Carried(Eval(data[..di + 1], 256), vals, Pow(2, bits), Pow(Pow(2, bits), |vals|), acc + data[di] * Pow(2, n))
  {
    hide Pow, Eval;
    assert data[..di + 1] == data[..di] + [data[di]];
    ValueAppend(data[..di], data[di], 256);
    TwoTo8();
    PowPow(2, 8, di);
    PowPow(2, bits, |vals|);
    PowAdd(2, bits * |vals|, n);
    Stack(Pow(Pow(2, bits), |vals|), acc, data[di], Pow(2, n));
  }

  lemma GiveValue(value: int, bits: nat, vals: seq<int>, acc: nat)
    requires Pow(2, bits) > 0
    requires Carried(value, vals, Pow(2, bits), Pow(Pow(2, bits), |vals|), acc)
    ensures Carried(value, vals + [acc % Pow(2, bits)], Pow(2, bits), Pow(Pow(2, bits), |vals| + 1), acc / Pow(2, bits))
  {
    hide Pow, Eval;
    var b := Pow(2, bits);
    ValueAppend(vals, acc % b, b);
    PowNext(b, |vals|);
    Regroup(Pow(b, |vals|), acc % b, b, acc / b);
  }
}
