/**
 The table-driven CRC-32 of the write-ahead log, on registers written as 32 binary
 digits, least significant first. Every step is a bijection of the register, so damage
 confined to four consecutive bytes always changes the checksum.
 */
module Crc {
  import opened NttSpec
  import opened Digits

  type Register = c: seq<int> | |c| == 32 && forall i :: 0 <= i < 32 ==> 0 <= c[i] < 2
    witness [0, 0, 0, 0, 0, 0, 0, 0, 0, 0, 0, 0, 0, 0, 0, 0, 0, 0, 0, 0, 0, 0, 0, 0, 0, 0, 0, 0, 0, 0, 0, 0]

  /** 0xEDB88320. */
  const POLY: Register := [0, 0, 0, 0, 0, 1, 0, 0, 1, 1, 0, 0, 0, 0, 0, 1, 0, 0, 0, 1, 1, 1, 0, 1, 1, 0, 1, 1, 0, 1, 1, 1]
  const ONES: Register := [1, 1, 1, 1, 1, 1, 1, 1, 1, 1, 1, 1, 1, 1, 1, 1, 1, 1, 1, 1, 1, 1, 1, 1, 1, 1, 1, 1, 1, 1, 1, 1]

  lemma PolyValue()
    ensures Eval(POLY, 2) == 0xEDB8_8320
  {
    hide Eval;
    var p := POLY;
    var h3, h2, h1 := p[24..], p[16..], p[8..];
    assert Eval(h3, 2) == 0xED by { EightDigits(h3); }
    EightAndRest(h2);
    assert h2[8..] == h3 && Eval(h2, 2) == 0xEDB8;
    EightAndRest(h1);
    assert h1[8..] == h2 && Eval(h1, 2) == 0xED_B883;
    EightAndRest(p);
    assert p[8..] == h1;
  }

  lemma EightAndRest(d: seq<int>)
    requires |d| >= 8
    ensures Eval(d, 2) == d[0] + 2 * d[1] + 4 * d[2] + 8 * d[3] + 16 * d[4] + 32 * d[5] + 64 * d[6] + 128 * d[7] + 256 * Eval(d[8..], 2)
  {
    EvalTail(d, 0);
    EvalTail(d, 1);
    EvalTail(d, 2);
    EvalTail(d, 3);
    EvalTail(d, 4);
    EvalTail(d, 5);
    EvalTail(d, 6);
    EvalTail(d, 7);
    hide Eval;
    assert d[0..] == d;
  }

  lemma EvalTail(d: seq<int>, i: nat)
    requires i < |d|
    ensures Eval(d[i..], 2) == d[i] + 2 * Eval(d[i + 1..], 2)
  {
    assert d[i..][1..] == d[i + 1..];
  }

  lemma EightDigits(d: seq<int>)
    requires |d| == 8
    ensures Eval(d, 2) == d[0] + 2 * d[1] + 4 * d[2] + 8 * d[3] + 16 * d[4] + 32 * d[5] + 64 * d[6] + 128 * d[7]
  {
    EightAndRest(d);
    assert d[8..] == [];
  }

  // ---------------------------------------------------------------- one bit at a time

  function Xor(a: Register, b: Register): Register {
    seq(32, i requires 0 <= i < 32 => (a[i] + b[i]) % 2)
  }

  function Shift(c: Register): Register {
    c[1..] + [0]
  }

  function BitStep(c: Register): Register {
    if c[0] == 1 then Xor(POLY, Shift(c)) else Shift(c)
  }

  function Steps(c: Register, n: nat): Register
    decreases n, c
  {
    if n == 0 then c else BitStep(Steps(c, n - 1))
  }

  lemma XorLaws(a: Register, b: Register, c: Register)
    ensures Xor(Xor(a, b), c) == Xor(a, Xor(b, c)) && Xor(a, b) == Xor(b, a)
    ensures Xor(a, b) == Xor(a, c) ==> b == c
  {
    if Xor(a, b) == Xor(a, c) {
      forall i | 0 <= i < 32
        ensures b[i] == c[i]
      {
        assert Xor(a, b)[i] == Xor(a, c)[i];
      }
    }
  }

  /** The top bit of the result tells which branch was taken, so a step can be undone. */
  lemma BitStepInjective(a: Register, b: Register)
    requires BitStep(a) == BitStep(b)
    ensures a == b
  {
    assert BitStep(a)[31] == a[0] && BitStep(b)[31] == b[0];
    XorLaws(POLY, Shift(a), Shift(b));
    assert Shift(a) == Shift(b);
    forall i | 1 <= i < 32
      ensures a[i] == b[i]
    {
      assert Shift(a)[i - 1] == a[i] && Shift(b)[i - 1] == b[i];
    }
  }

  lemma {:induction false} StepsInjective(a: Register, b: Register, n: nat)
    requires Steps(a, n) == Steps(b, n)
    ensures a == b
    decreases n
  {
    if n > 0 {
      BitStepInjective(Steps(a, n - 1), Steps(b, n - 1));
      StepsInjective(a, b, n - 1);
    }
  }

  lemma BitStepLinear(a: Register, b: Register)
    ensures BitStep(Xor(a, b)) == Xor(BitStep(a), BitStep(b))
  {
    forall i | 0 <= i < 32
      ensures BitStep(Xor(a, b))[i] == Xor(BitStep(a), BitStep(b))[i]
    {
      BitStepLinearAt(a, b, i);
    }
  }

  lemma BitStepLinearAt(a: Register, b: Register, i: nat)
    requires i < 32
    ensures BitStep(Xor(a, b))[i] == Xor(BitStep(a), BitStep(b))[i]
  {
    hide *;
    var x := Xor(a, b);
    BitAt(a, i);
    BitAt(b, i);
    BitAt(x, i);
    XorAt(a, b, 0);
    XorAt(BitStep(a), BitStep(b), i);
    if i < 31 {
      XorAt(a, b, i + 1);
      LinearBit(a[0], b[0], POLY[i], a[i + 1], b[i + 1]);
    } else {
      LinearBit(a[0], b[0], POLY[i], 0, 0);
    }
  }

  lemma XorAt(a: Register, b: Register, i: nat)
    requires i < 32
    ensures Xor(a, b)[i] == (a[i] + b[i]) % 2
  {
  }

  lemma LinearBit(a: int, b: int, p: int, c: int, d: int)
    requires 0 <= a < 2 && 0 <= b < 2 && 0 <= p < 2 && 0 <= c < 2 && 0 <= d < 2
    ensures ((a + b) % 2 * p + (c + d) % 2) % 2 == ((a * p + c) % 2 + (b * p + d) % 2) % 2
  {
    assert p == 0 || p == 1;
  }

  lemma BitAt(c: Register, i: nat)
    requires i < 32
    ensures BitStep(c)[i] == (c[0] * POLY[i] + (if i < 31 then c[i + 1] else 0)) % 2
  {
  }

  lemma {:induction false} StepsLinear(a: Register, b: Register, n: nat)
    ensures Steps(Xor(a, b), n) == Xor(Steps(a, n), Steps(b, n))
    decreases n
  {
    if n > 0 {
      hide BitStep, Xor;
      StepsLinear(a, b, n - 1);
      BitStepLinear(Steps(a, n - 1), Steps(b, n - 1));
    }
  }

  lemma StepsNone(c: Register)
    ensures Steps(c, 0) == c
  {
  }

  lemma StepsNext(c: Register, n: nat)
    ensures Steps(c, n + 1) == BitStep(Steps(c, n))
  {
  }

  lemma {:induction false} StepsAdd(c: Register, m: nat, n: nat)
    ensures Steps(Steps(c, m), n) == Steps(c, m + n)
    decreases n
  {
    hide *;
    if n == 0 {
      StepsNone(Steps(c, m));
    } else {
      StepsAdd(c, m, n - 1);
      StepsNext(c, m + n - 1);
      StepsNext(Steps(c, m), n - 1);
    }
  }

  function Zeros(n: nat): (z: seq<int>)
    ensures |z| == n && IsDigits(z, 2)
  {
    seq(n, i => 0)
  }

  /** d placed n positions up. */
  function Place(d: seq<int>, n: nat): Register
    requires |d| + n <= 32 && IsDigits(d, 2)
  {
    Zeros(n) + d + Zeros(32 - n - |d|)
  }

  lemma PlaceDown(d: seq<int>, n: nat)
    requires 0 < n && |d| + n <= 32 && IsDigits(d, 2)
    ensures BitStep(Place(d, n)) == Place(d, n - 1)
  {
    var c := Place(d, n);
    assert c[0] == 0;
    assert c[1..] + [0] == Place(d, n - 1);
  }

  /** Low zero bits are shifted out without touching the polynomial. */
  lemma {:induction false} StepsShift(d: seq<int>, n: nat)
    requires |d| + n <= 32 && IsDigits(d, 2)
    ensures Steps(Place(d, n), n) == Place(d, 0)
    decreases n
  {
    if n == 0 {
      StepsNone(Place(d, n));
    } else {
      PlaceDown(d, n);
      hide *;
      StepsShift(d, n - 1);
      StepsAdd(Place(d, n), 1, n - 1);
      StepsNone(Place(d, n));
      StepsNext(Place(d, n), 0);
    }
  }

  // ---------------------------------------------------------------- one byte at a time

  /** A number below 2^32 as a register. */
  function Load(n: nat): Register {
    OfValueIsDigits(n, 32, 2);
    OfValue(n, 32, 2)
  }

  /** The table entry: eight bit steps of the index. */
  function TableEntry(i: nat): Register {
    Steps(Load(i), 8)
  }

  /** The byte step of `crc32`: a table entry of the low byte against the rest of the register. */
  function ByteStep(c: Register, b: Byte): Register
  {
    Xor(TableEntry(LowByte(Xor(c, Load(b)))), DownByte(c))
  }

  /** c & 0xFF. */
  function LowByte(c: Register): nat {
    hide Eval;
    ValueBound(c[..8], 2);
    Eval(c[..8], 2)
  }

  /** c >> 8. */
  function DownByte(c: Register): Register {
    c[8..] + Zeros(8)
  }

  lemma {:induction false} DigitsOfZero(m: nat)
    ensures OfValue(0, m, 2) == Zeros(m)
  {
    if m > 0 {
      DigitsOfZero(m - 1);
      assert Zeros(m) == [0] + Zeros(m - 1);
    }
  }

  lemma {:induction false} DigitsOfSmall(v: nat, n: nat, m: nat)
    requires v < Pow(2, n)
    ensures OfValue(v, n + m, 2) == OfValue(v, n, 2) + Zeros(m)
    decreases n
  {
    if n == 0 {
      DigitsOfZero(m);
      assert OfValue(v, 0, 2) == [];
    } else {
      DigitsOfSmall(v / 2, n - 1, m);
      DigitsNext(v, n - 1 + m);
      DigitsNext(v, n - 1);
      hide OfValue;
      assert [v % 2] + (OfValue(v / 2, n - 1, 2) + Zeros(m)) == ([v % 2] + OfValue(v / 2, n - 1, 2)) + Zeros(m);
    }
  }

  lemma DigitsNext(v: nat, n: nat)
    ensures OfValue(v, n + 1, 2) == [v % 2] + OfValue(v / 2, n, 2)
  {
  }

  lemma LoadByte(b: nat)
    requires b < 256
    ensures Load(b) == OfValue(b, 8, 2) + Zeros(24)
  {
    assert Pow(2, 8) == 256;
    DigitsOfSmall(b, 8, 24);
  }

  /** Loading the number that the low eight digits stand for. */
  lemma LoadDigits(d: seq<int>)
    requires |d| == 8 && IsDigits(d, 2)
    ensures 0 <= Eval(d, 2) < 256 && Load(Eval(d, 2)) == d + Zeros(24)
  {
    assert Pow(2, 8) == 256;
    ValueBound(d, 2);
    LoadByte(Eval(d, 2));
    OfValueOfDigits(d, 2);
  }

  /** The table step is eight bit steps of the register with the byte mixed in. */
  lemma ByteStepIsSteps(c: Register, b: Byte)
    ensures ByteStep(c, b) == Steps(Xor(c, Load(b)), 8)
  {
    hide Steps, Load, Eval;
    var x := Xor(c, Load(b));
    LoadByte(b);
    OfValueIsDigits(b, 8, 2);
    assert x[8..] == c[8..] by {
      forall i | 8 <= i < 32
        ensures x[i] == c[i]
      {
        assert Load(b)[i] == 0;
      }
    }
    var lo: Register, hi: Register := x[..8] + Zeros(24), Zeros(8) + x[8..];
    assert x == Xor(lo, hi);
    StepsLinear(lo, hi, 8);
    StepsShift(x[8..], 8);
    assert Place(x[8..], 8) == hi && Place(x[8..], 0) == x[8..] + Zeros(8);
    LoadDigits(x[..8]);
  }

  /** Main result: each byte step is a bijection of the register, for every byte. */
  lemma ByteStepInjective(a: Register, b: Register, x: Byte)
    requires ByteStep(a, x) == ByteStep(b, x)
    ensures a == b
  {
    hide Steps, Xor, Load;
    ByteStepIsSteps(a, x);
    ByteStepIsSteps(b, x);
    StepsInjective(Xor(a, Load(x)), Xor(b, Load(x)), 8);
    XorLaws(Load(x), a, b);
    XorLaws(a, Load(x), b);
    XorLaws(b, Load(x), a);
  }

  // ---------------------------------------------------------------- the checksum

  function Run(c: Register, data: seq<Byte>): Register
  {
    if data == [] then c else ByteStep(Run(c, data[..|data| - 1]), data[|data| - 1])
  }

  function Crc32(data: seq<Byte>): (r: nat)
    ensures r < Pow(2, 32)
  {
    var c := Xor(Run(ONES, data), ONES);
    ValueBound(c, 2);
    Eval(c, 2)
  }

  lemma {:induction false} RunConcat(c: Register, a: seq<Byte>, b: seq<Byte>)
    ensures Run(c, a + b) == Run(Run(c, a), b)
    decreases |b|
  {
    hide ByteStep;
    if b == [] {
      assert a + b == a;
    } else {
      var n := |b| - 1;
      RunConcat(c, a, b[..n]);
      assert (a + b)[..|a + b| - 1] == a + b[..n];
    }
  }

  lemma {:induction false} RunInjective(a: Register, b: Register, data: seq<Byte>)
    requires Run(a, data) == Run(b, data)
    ensures a == b
    decreases |data|
  {
    if data != [] {
      hide ByteStep;
      var n := |data| - 1;
      ByteStepInjective(Run(a, data[..n]), Run(b, data[..n]), data[n]);
      RunInjective(a, b, data[..n]);
    }
  }

  /** The register that four bytes are mixed into, one byte above the other. */
  function Placed(w: seq<Byte>, n: nat): Register
    requires n <= |w| == 4
  {
    if n == 0 then Zeros(32)
    else Xor(Placed(w, n - 1), Shifted(w[n - 1], 8 * (n - 1)))
  }

  /** A byte moved up by s positions. */
  function Shifted(b: Byte, s: nat): Register
    requires s <= 24
  {
    OfValueIsDigits(b, 8, 2);
    Place(OfValue(b, 8, 2), s)
  }

  lemma ShiftedDown(b: Byte, s: nat)
    requires s <= 24
    ensures Steps(Shifted(b, s), s) == Load(b)
  {
    OfValueIsDigits(b, 8, 2);
    StepsShift(OfValue(b, 8, 2), s);
    LoadByte(b);
    assert Place(OfValue(b, 8, 2), 0) == OfValue(b, 8, 2) + Zeros(24);
  }

  /** Feeding n bytes is mixing all of them in first, then stepping 8n bits. */
  lemma {:induction false} RunIsPlaced(c: Register, w: seq<Byte>, n: nat)
    requires n <= |w| == 4
    ensures Run(c, w[..n]) == Steps(Xor(c, Placed(w, n)), 8 * n)
    decreases n
  {
    hide Steps, Xor, ByteStep, Shifted, Load;
    if n == 0 {
      assert Steps(Xor(c, Zeros(32)), 0) == c by { XorZero(c); StepsNone(c); }
      XorZero(c);
      assert w[..0] == [];
    } else {
      var s := 8 * (n - 1);
      RunIsPlaced(c, w, n - 1);
      assert w[..n][..n - 1] == w[..n - 1];
      var u, p, q := Run(c, w[..n - 1]), Xor(c, Placed(w, n - 1)), Shifted(w[n - 1], s);
      ByteStepIsSteps(u, w[n - 1]);
      ShiftedDown(w[n - 1], s);
      StepsLinear(p, q, s);
      StepsAdd(Xor(p, q), s, 8);
      XorLaws(c, Placed(w, n - 1), q);
    }
  }

  lemma XorZero(c: Register)
    ensures Xor(c, Zeros(32)) == c
  {
  }


  /** Different byte quadruples are placed differently. */
  lemma PlacedInjective(a: seq<Byte>, b: seq<Byte>)
    requires |a| == |b| == 4 && Placed(a, 4) == Placed(b, 4)
    ensures a == b
  {
    forall i | 0 <= i < 4
      ensures a[i] == b[i]
    {
      PlacedSlice(a, i);
      PlacedSlice(b, i);
      SameByte(a[i], b[i]);
    }
  }

  lemma SameByte(x: Byte, y: Byte)
    requires OfValue(x, 8, 2) == OfValue(y, 8, 2)
    ensures x == y
  {
    assert Pow(2, 8) == 256;
    ValueOfValue(x, 8, 2);
    ValueOfValue(y, 8, 2);
  }

  lemma PlacedSlice(w: seq<Byte>, i: nat)
    requires i < 4 == |w|
    ensures Placed(w, 4)[8 * i..8 * i + 8] == OfValue(w[i], 8, 2)
  {
    hide OfValue;
    var r := OfValue(w[i], 8, 2);
    OfValueIsDigits(w[i], 8, 2);
    forall k | 0 <= k < 8
      ensures Placed(w, 4)[8 * i + k] == r[k]
    {
      PlacedAt(w, 4, i, k);
    }
  }

  lemma {:induction false} PlacedAt(w: seq<Byte>, n: nat, i: nat, k: nat)
    requires n <= 4 == |w| && i < 4 && k < 8
    ensures Placed(w, n)[8 * i + k] == if i < n then OfValue(w[i], 8, 2)[k] else 0
    decreases n
  {
    hide OfValue;
    if n > 0 {
      PlacedAt(w, n - 1, i, k);
      OfValueIsDigits(w[n - 1], 8, 2);
      var s := Shifted(w[n - 1], 8 * (n - 1));
      assert s[8 * i + k] == if i == n - 1 then OfValue(w[i], 8, 2)[k] else 0;
    }
  }

  lemma FourBytesInjective(c: Register, a: seq<Byte>, b: seq<Byte>)
    requires |a| == |b| == 4 && Run(c, a) == Run(c, b)
    ensures a == b
  {
    hide Run, Steps, Xor, Placed;
    RunIsPlaced(c, a, 4);
    RunIsPlaced(c, b, 4);
    assert a[..4] == a && b[..4] == b;
    StepsInjective(Xor(c, Placed(a, 4)), Xor(c, Placed(b, 4)), 32);
    XorLaws(c, Placed(a, 4), Placed(b, 4));
    PlacedInjective(a, b);
  }

  /** Main result: data that differ, but only within four consecutive bytes, have different checksums. */
  lemma BurstDetected(p: seq<Byte>, q: seq<Byte>, i: nat)
    requires |p| == |q| && i + 4 <= |p| && p != q
    requires forall j :: 0 <= j < |p| && !(i <= j < i + 4) ==> p[j] == q[j]
    ensures Crc32(p) != Crc32(q)
  {
    hide *;
    var before, a, b, after := p[..i], p[i..i + 4], q[i..i + 4], p[i + 4..];
    assert p == before + a + after && q == before + b + after;
    if Crc32(p) == Crc32(q) {
      SameBurst(before, a, b, after);
    }
  }

  lemma SameBurst(before: seq<Byte>, a: seq<Byte>, b: seq<Byte>, after: seq<Byte>)
    requires |a| == |b| == 4
    requires Crc32(before + a + after) == Crc32(before + b + after)
    ensures a == b
  {
    hide *;
    SameRun(before + a + after, before + b + after);
    RunConcat(ONES, before + a, after);
    RunConcat(ONES, before + b, after);
    RunConcat(ONES, before, a);
    RunConcat(ONES, before, b);
    RunInjective(Run(Run(ONES, before), a), Run(Run(ONES, before), b), after);
    FourBytesInjective(Run(ONES, before), a, b);
  }

  /** Equal checksums come from equal registers. */
  lemma SameRun(p: seq<Byte>, q: seq<Byte>)
    requires Crc32(p) == Crc32(q)
    ensures Run(ONES, p) == Run(ONES, q)
  {
    hide Run, Xor, Eval;
    var a, b := Run(ONES, p), Run(ONES, q);
    ValueInjective(Xor(a, ONES), Xor(b, ONES), 2);
    XorLaws(ONES, a, b);
    XorLaws(a, ONES, b);
    XorLaws(b, ONES, a);
  }

  // ---------------------------------------------------------------- the loops

  /** The table, entry by entry and bit by bit. */
  method Table() returns (table: seq<Register>)
    ensures |table| == 256 && forall i :: 0 <= i < 256 ==> table[i] == TableEntry(i)
  {
    hide Steps, Load, BitStep;
    table := [];
    for i := 0 to 256
      invariant |table| == i && forall j :: 0 <= j < i ==> table[j] == TableEntry(j)
    {
      var c := Load(i);
      StepsNone(c);
      for n := 0 to 8
        invariant c == Steps(Load(i), n)
      {
        StepsNext(Load(i), n);
        c := BitStep(c);
      }
      table := table + [c];
    }
  }

  method Checksum(data: seq<Byte>) returns (r: nat)
    ensures r == Crc32(data)
  {
    hide Xor, Load, TableEntry, LowByte, DownByte, Eval;
    var table := Table();
    var c := ONES;
    for i := 0 to |data|
      invariant c == Run(ONES, data[..i])
    {
      assert data[..i + 1][..i] == data[..i];
      LowByteBound(Xor(c, Load(data[i])));
      c := Xor(table[LowByte(Xor(c, Load(data[i])))], DownByte(c));
    }
    assert data[..|data|] == data;
    r := RegisterValue(Xor(c, ONES));
  }

  lemma LowByteBound(c: Register)
    ensures LowByte(c) < 256
  {
    assert Pow(2, 8) == 256;
    ValueBound(c[..8], 2);
  }

  method RegisterValue(c: Register) returns (r: nat)
    ensures r == Eval(c, 2)
  {
    ValueBound(c, 2);
    r := Eval(c, 2);
  }
}
