/**
 Arithmetic modulo p = 2^255 - 19 on five limbs of 51 bits in 64-bit words: every operation
 is exact modulo p, keeps its limb bounds, and never overflows or underflows a word.
 */
module Field25519 {
  import opened NttSpec
  import opened Digits
  import F = FoldedProduct
  import M = Modular

  const P: nat := 0x7FFF_FFFF_FFFF_FFFF_FFFF_FFFF_FFFF_FFFF_FFFF_FFFF_FFFF_FFFF_FFFF_FFFF_FFFF_FFED
  const TWO_51: nat := 0x8_0000_0000_0000
  const TWO_53: nat := 0x20_0000_0000_0000
  const TWO_64: nat := 0x1_0000_0000_0000_0000
  const TWO_128: nat := 0x1_0000_0000_0000_0000_0000_0000_0000_0000
  const TWO_255: nat := 0x8000_0000_0000_0000_0000_0000_0000_0000_0000_0000_0000_0000_0000_0000_0000_0000

  /** By Fermat's little theorem x^(p-2) is the inverse of x. */
  const INVERSE_EXPONENT: nat := P - 2

  type Fe = seq<int>

  predicate FitsU64(x: int) {
    0 <= x < TWO_64
  }

  predicate FitsU128(x: int) {
    0 <= x < TWO_128
  }

  function Value(l: Fe): int {
    Eval(l, TWO_51)
  }

  lemma Powers()
    ensures Pow(TWO_51, 5) == TWO_255 && TWO_255 == P + 19
  {
    assert Pow(TWO_51, 1) == TWO_51;
    assert Pow(TWO_51, 2) == TWO_51 * TWO_51;
    PowAdd(TWO_51, 2, 2);
    PowAdd(TWO_51, 1, 4);
  }

  /** The value written out. */
  lemma ValueIs(l: Fe)
    requires |l| == 5
    ensures Value(l) == l[0] + TWO_51 * (l[1] + TWO_51 * (l[2] + TWO_51 * (l[3] + TWO_51 * l[4])))
  {
    assert l[1..][1..] == l[2..] && l[2..][1..] == l[3..] && l[3..][1..] == l[4..] && l[4..][1..] == [];
    assert Value([]) == 0;
    assert Value(l[4..]) == l[4];
    assert Value(l[3..]) == l[3] + TWO_51 * l[4];
    assert Value(l[2..]) == l[2] + TWO_51 * Value(l[3..]);
    assert Value(l[1..]) == l[1] + TWO_51 * Value(l[2..]);
  }

  // ---------------------------------------------------------------- bounds

  /** What every operation accepts. */
  predicate Loose(l: Fe) {
    |l| == 5 && forall i :: 0 <= i < 5 ==> 0 <= l[i] < TWO_53
  }

  /** What every operation but addition returns: 51 bits, the lowest limb slightly more. */
  predicate Tight(l: Fe) {
    |l| == 5 && 0 <= l[0] < TWO_51 + 155_648 && forall i :: 1 <= i < 5 ==> 0 <= l[i] < TWO_51
  }

  predicate IsWords(l: Fe) {
    |l| == 5 && forall i :: 0 <= i < 5 ==> 0 <= l[i] < 0x8000_0000_0000_0000
  }

  // ---------------------------------------------------------------- carrying

  /** The limbs below 51 bits and what leaves the top. */
  datatype Carried = Carried(limbs: Fe, out: int)

  function CarryChain(l: Fe): Carried
    requires |l| == 5
  {
    var l1 := l[1] + l[0] / TWO_51;
    var l2 := l[2] + l1 / TWO_51;
    var l3 := l[3] + l2 / TWO_51;
    var l4 := l[4] + l3 / TWO_51;
    Carried([l[0] % TWO_51, l1 % TWO_51, l2 % TWO_51, l3 % TWO_51, l4 % TWO_51], l4 / TWO_51)
  }

  /** A carry chain is the division of the value by 2^255. */
  lemma ChainDivides(l: Fe)
    requires |l| == 5
    ensures var c := CarryChain(l);
      |c.limbs| == 5 && IsDigits(c.limbs, TWO_51) && Value(l) == Value(c.limbs) + TWO_255 * c.out && 0 <= Value(c.limbs) < TWO_255
  {
    var c := CarryChain(l);
    ValueIs(l);
    ValueIs(c.limbs);
    Powers();
    hide Eval, Pow;
    ValueBound(c.limbs, TWO_51);
  }

  /** The top carry comes back multiplied by 19. */
  function Carry(l: Fe): Fe
    requires |l| == 5
  {
    var c := CarryChain(l);
    c.limbs[0 := c.limbs[0] + 19 * c.out]
  }

  lemma CarryValue(l: Fe)
    requires |l| == 5
    ensures |Carry(l)| == 5 && Value(Carry(l)) == Value(l) - CarryChain(l).out * P
    ensures Value(Carry(l)) % P == Value(l) % P
  {
    hide CarryChain;
    var c := CarryChain(l);
    ChainDivides(l);
    ValueIs(c.limbs);
    ValueIs(Carry(l));
    Powers();
    hide Eval, Pow, Carry;
    M.Multiple(Value(Carry(l)), Value(l), 0 - c.out, P);
  }

  lemma CarryTight(l: Fe)
    requires IsWords(l)
    ensures Tight(Carry(l)) && 0 <= CarryChain(l).out < 8192
  {
  }

  /** One limb carried into the next. */
  function Step(l: Fe, i: nat): (r: Fe)
    requires |l| == 5 && i < 4
    ensures |r| == 5
  {
    l[i := l[i] % TWO_51][i + 1 := l[i + 1] + l[i] / TWO_51]
  }

  /** The top limb carried into the lowest. */
  function Fold(l: Fe): (r: Fe)
    requires |l| == 5
    ensures |r| == 5
  {
    l[4 := l[4] % TWO_51][0 := l[0] + l[4] / TWO_51 * 19]
  }

  lemma CarryIsSteps(l: Fe)
    requires |l| == 5
    ensures Carry(l) == Fold(Step(Step(Step(Step(l, 0), 1), 2), 3))
  {
  }

  /** The first limbs of a carry are settled, the others still to come. */
  ghost predicate Carrying(l: Fe, i: nat) {
    |l| == 5 && i < 5 && 0 <= l[i] < TWO_64
    && (forall j :: 0 <= j < i ==> 0 <= l[j] < TWO_51) && forall j :: i < j < 5 ==> 0 <= l[j] < 0x8000_0000_0000_0000
  }

  lemma StepCarrying(l: Fe, i: nat)
    requires i < 4 && Carrying(l, i)
    ensures Carrying(Step(l, i), i + 1)
  {
  }

  method CarryLimb(l: array<int>, i: nat)
    requires l.Length == 5 && i < 4 && Carrying(l[..], i)
    modifies l
    ensures l[..] == Step(old(l[..]), i) && Carrying(l[..], i + 1)
  {
    ghost var was := l[..];
    var c := l[i] / TWO_51;
    l[i] := l[i] % TWO_51;
    l[i + 1] := l[i + 1] + c;
    assert FitsU64(l[i + 1]);
    StepCarrying(was, i);
  }

  method FoldLimb(l: array<int>)
    requires l.Length == 5 && Carrying(l[..], 4)
    modifies l
    ensures l[..] == Fold(old(l[..]))
  {
    var c := l[4] / TWO_51;
    l[4] := l[4] % TWO_51;
    assert FitsU64(l[0] + c * 19);
    l[0] := l[0] + c * 19;
  }

  /** `Fe::carry`, limb by limb. */
  method CarryInPlace(l: array<int>)
    requires l.Length == 5 && IsWords(l[..])
    modifies l
    ensures l[..] == Carry(old(l[..]))
  {
    CarryIsSteps(l[..]);
    assert Carrying(l[..], 0);
    hide Carry, Carrying, Step, Fold;
    CarryLimb(l, 0);
    CarryLimb(l, 1);
    CarryLimb(l, 2);
    CarryLimb(l, 3);
    FoldLimb(l);
  }

  // ---------------------------------------------------------------- freezing

  lemma TightValue(l: Fe)
    requires Tight(l)
    ensures 0 <= l[0] <= Value(l) < TWO_255 + 155_648
  {
    var low := l[0 := if l[0] < TWO_51 then l[0] else TWO_51 - 1];
    assert IsDigits(low, TWO_51);
    Powers();
    ValueIs(l);
    ValueIs(low);
    hide Eval, Pow;
    ValueBound(low, TWO_51);
  }

  /** A second carry brings every limb below 51 bits. */
  lemma CarriedTwice(l: Fe)
    requires Tight(l)
    ensures |Carry(l)| == 5 && IsDigits(Carry(l), TWO_51) && Value(Carry(l)) % P == Value(l) % P
  {
    hide CarryChain, Eval;
    var c := CarryChain(l);
    CarryValue(l);
    TightValue(l);
    ChainDivides(l);
    OutIsBit(Value(l), Value(c.limbs), c.out);
    FirstBelow(c.limbs);
  }

  lemma OutIsBit(v: int, w: int, out: int)
    requires 0 <= v < TWO_255 + 155_648 && 0 <= w < TWO_255 && v == w + TWO_255 * out
    ensures out == 0 || (out == 1 && w < 155_648)
  {
  }

  lemma FirstBelow(l: Fe)
    requires |l| == 5 && IsDigits(l, TWO_51)
    ensures 0 <= l[0] <= Value(l)
  {
    ValueIs(l);
    hide Eval;
  }

  function TwiceCarried(l: Fe): (d: Fe)
    requires |l| == 5
    ensures |d| == 5
  {
    Carry(Carry(l))
  }

  /** Whether adding 19 overflows 2^255, that is whether the value reaches p. */
  function Reaches(d: Fe): int
    requires |d| == 5
  {
    CarryChain(d[0 := d[0] + 19]).out
  }

  function Subtracted(d: Fe): (f: Fe)
    requires |d| == 5
    ensures |f| == 5
  {
    CarryChain(d[0 := d[0] + 19 * Reaches(d)]).limbs
  }

  function Frozen(l: Fe): (f: Fe)
    requires |l| == 5
    ensures |f| == 5
  {
    Subtracted(TwiceCarried(l))
  }

  lemma FirstChanged(d: Fe, x: int)
    requires |d| == 5
    ensures Value(d[0 := d[0] + x]) == Value(d) + x
  {
    ValueIs(d);
    ValueIs(d[0 := d[0] + x]);
    hide Eval;
  }

  lemma SubtractedValue(d: Fe)
    requires |d| == 5 && IsDigits(d, TWO_51)
    ensures 0 <= Value(d) < TWO_255 && Reaches(d) == (if Value(d) >= P then 1 else 0)
    ensures IsDigits(Subtracted(d), TWO_51) && Value(Subtracted(d)) == if Value(d) >= P then Value(d) - P else Value(d)
  {
    hide CarryChain, Eval, Pow;
    Powers();
    ValueBound(d, TWO_51);
    FirstChanged(d, 19);
    ChainDivides(d[0 := d[0] + 19]);
    var q := Reaches(d);
    FirstChanged(d, 19 * q);
    ChainDivides(d[0 := d[0] + 19 * q]);
  }

  /** Main result: freezing gives the unique limbs of the residue in [0, p). */
  lemma FrozenIsResidue(l: Fe)
    requires IsWords(l)
    ensures IsDigits(Frozen(l), TWO_51) && Value(Frozen(l)) == Value(l) % P
  {
    hide CarryChain, Eval, Pow, Carry, Tight;
    CarryTight(l);
    CarryValue(l);
    CarriedTwice(Carry(l));
    var d := TwiceCarried(l);
    SubtractedValue(d);
    Powers();
    ResidueOf(Value(d), Value(l));
  }

  lemma ResidueOf(v: int, w: int)
    requires 0 <= v < 2 * P && v % P == w % P
    ensures w % P == if v >= P then v - P else v
  {
    if v >= P {
      M.Multiple(v, v - P, 1, P);
      M.Small(v - P, P);
    } else {
      M.Small(v, P);
    }
  }

  /** Elements that are equal modulo p freeze to the same limbs. */
  lemma FrozenUnique(a: Fe, b: Fe)
    requires IsWords(a) && IsWords(b)
    ensures Frozen(a) == Frozen(b) <==> Value(a) % P == Value(b) % P
  {
    hide Frozen, Eval;
    FrozenIsResidue(a);
    FrozenIsResidue(b);
    if Value(a) % P == Value(b) % P {
      ValueInjective(Frozen(a), Frozen(b), TWO_51);
    }
  }

  /** `Fe::freeze`, step by step. */
  method FreezeInPlace(l: array<int>)
    requires l.Length == 5 && IsWords(l[..])
    modifies l
    ensures l[..] == Frozen(old(l[..]))
  {
    hide Carry, CarryChain, Eval, Pow, Frozen;
    ghost var was := l[..];
    CarryTight(was);
    TightIsWords(Carry(was));
    CarryInPlace(l);
    CarriedTwice(Carry(was));
    CarryInPlace(l);
    ghost var d := l[..];
    FrozenOf(was, d);
    SubtractInPlace(l);
  }

  lemma TightIsWords(l: Fe)
    requires Tight(l)
    ensures IsWords(l) && Loose(l)
  {
  }

  lemma FrozenOf(l: Fe, d: Fe)
    requires |l| == 5 && d == Carry(Carry(l)) && |d| == 5
    ensures Frozen(l) == Subtracted(d)
  {
  }

  /** The quotient of the value plus 19 by 2^255, limb by limb. */
  method ReachesOf(l: array<int>) returns (q: int)
    requires l.Length == 5
    ensures q == Reaches(l[..])
  {
    q := (l[0] + 19) / TWO_51;
    q := (l[1] + q) / TWO_51;
    q := (l[2] + q) / TWO_51;
    q := (l[3] + q) / TWO_51;
    q := (l[4] + q) / TWO_51;
  }

  /** A carry chain whose top carry is dropped. */
  method ChainInPlace(l: array<int>)
    requires l.Length == 5
    modifies l
    ensures l[..] == CarryChain(old(l[..])).limbs
  {
    l[1] := l[1] + l[0] / TWO_51;
    l[0] := l[0] % TWO_51;
    l[2] := l[2] + l[1] / TWO_51;
    l[1] := l[1] % TWO_51;
    l[3] := l[3] + l[2] / TWO_51;
    l[2] := l[2] % TWO_51;
    l[4] := l[4] + l[3] / TWO_51;
    l[3] := l[3] % TWO_51;
    l[4] := l[4] % TWO_51;
  }

  method SubtractInPlace(l: array<int>)
    requires l.Length == 5 && IsDigits(l[..], TWO_51)
    modifies l
    ensures l[..] == Subtracted(old(l[..]))
  {
    hide CarryChain, IsDigits, Reaches;
    ghost var d := l[..];
    var q := ReachesOf(l);
    l[0] := l[0] + 19 * q;
    assert l[..] == d[0 := d[0] + 19 * q];
    ChainInPlace(l);
  }

  // ---------------------------------------------------------------- addition and subtraction

  function Add(a: Fe, b: Fe): (r: Fe)
    requires |a| == |b| == 5
    ensures |r| == 5
  {
    [a[0] + b[0], a[1] + b[1], a[2] + b[2], a[3] + b[3], a[4] + b[4]]
  }

  lemma AddExact(a: Fe, b: Fe)
    requires Tight(a) && Tight(b)
    ensures Loose(Add(a, b)) && Value(Add(a, b)) == Value(a) + Value(b)
  {
    ValueIs(a);
    ValueIs(b);
    ValueIs(Add(a, b));
    hide Eval;
  }

  /** Sixteen times p, limb by limb, is added first. */
  const SIXTEEN_P: Fe := [36_028_797_018_963_664, 36_028_797_018_963_952, 36_028_797_018_963_952, 36_028_797_018_963_952, 36_028_797_018_963_952]

  lemma SixteenP()
    ensures |SIXTEEN_P| == 5 && Value(SIXTEEN_P) == 16 * P
  {
    ValueIs(SIXTEEN_P);
    hide Eval;
  }

  function Difference(a: Fe, b: Fe): (r: Fe)
    requires |a| == |b| == 5
    ensures |r| == 5
  {
    [a[0] + SIXTEEN_P[0] - b[0], a[1] + SIXTEEN_P[1] - b[1], a[2] + SIXTEEN_P[2] - b[2], a[3] + SIXTEEN_P[3] - b[3], a[4] + SIXTEEN_P[4] - b[4]]
  }

  function Sub(a: Fe, b: Fe): Fe
    requires |a| == |b| == 5
  {
    Carry(Difference(a, b))
  }

  /** Nothing underflows, and the difference is exact modulo p. */
  lemma SubExact(a: Fe, b: Fe)
    requires Loose(a) && Loose(b)
    ensures IsWords(Difference(a, b)) && Tight(Sub(a, b)) && Value(Sub(a, b)) % P == (Value(a) - Value(b)) % P
  {
    ValueIs(a);
    ValueIs(b);
    ValueIs(Difference(a, b));
    ValueIs(SIXTEEN_P);
    SixteenP();
    hide Eval, Carry;
    CarryTight(Difference(a, b));
    CarryValue(Difference(a, b));
    M.Multiple(Value(Difference(a, b)), Value(a) - Value(b), 16, P);
  }

  // ---------------------------------------------------------------- multiplication

  lemma FoldingFactor()
    ensures Pow(TWO_51, 5) % P == 19 % P
  {
    Powers();
    M.Multiple(TWO_255, 19, 1, P);
  }

  /** The five sums of products; limbs that overflow come back multiplied by 19. */
  function Products(a: Fe, b: Fe): (t: seq<int>)
    requires |a| == |b| == 5
    ensures |t| == 5
  {
    [a[0] * b[0] + a[1] * (19 * b[4]) + a[2] * (19 * b[3]) + a[3] * (19 * b[2]) + a[4] * (19 * b[1]),
     a[0] * b[1] + a[1] * b[0] + a[2] * (19 * b[4]) + a[3] * (19 * b[3]) + a[4] * (19 * b[2]),
     a[0] * b[2] + a[1] * b[1] + a[2] * b[0] + a[3] * (19 * b[4]) + a[4] * (19 * b[3]),
     a[0] * b[3] + a[1] * b[2] + a[2] * b[1] + a[3] * b[0] + a[4] * (19 * b[4]),
     a[0] * b[4] + a[1] * b[3] + a[2] * b[2] + a[3] * b[1] + a[4] * b[0]]
  }

  lemma CoefIs(a: Fe, b: Fe, k: nat)
    requires |a| == |b| == 5 && k < 5
    ensures F.Coef(a, b, k, 5, 19) == a[0] * F.Shifted(b, 0, k, 19) + a[1] * F.Shifted(b, 1, k, 19) + a[2] * F.Shifted(b, 2, k, 19)
                                    + a[3] * F.Shifted(b, 3, k, 19) + a[4] * F.Shifted(b, 4, k, 19)
  {
    hide F.Shifted;
    CoefNext(a, b, k, 0);
    CoefNext(a, b, k, 1);
    CoefNext(a, b, k, 2);
    CoefNext(a, b, k, 3);
    CoefNext(a, b, k, 4);
    CoefNone(a, b, k);
    hide F.Coef;
  }

  lemma CoefNext(a: Fe, b: Fe, k: nat, m: nat)
    requires |a| == |b| == 5 && k < 5 && m < 5
    ensures F.Coef(a, b, k, m + 1, 19) == F.Coef(a, b, k, m, 19) + a[m] * F.Shifted(b, m, k, 19)
  {
  }

  lemma CoefNone(a: Fe, b: Fe, k: nat)
    requires |a| == |b| == 5 && k < 5
    ensures F.Coef(a, b, k, 0, 19) == 0
  {
  }

  lemma ProductsAre(a: Fe, b: Fe)
    requires |a| == |b| == 5
    ensures Products(a, b) == F.Product(a, b, 19)
  {
    CoefIs(a, b, 0);
    CoefIs(a, b, 1);
    CoefIs(a, b, 2);
    CoefIs(a, b, 3);
    CoefIs(a, b, 4);
    hide F.Coef;
  }

  const WIDE: nat := 95 * (TWO_53 * TWO_53)

  /** The sums fit 113 bits, the top one 109. */
  ghost predicate IsWide(t: seq<int>) {
    |t| == 5 && (forall i :: 0 <= i < 5 ==> 0 <= t[i] <= WIDE) && t[4] <= 5 * (TWO_53 * TWO_53)
  }

  lemma TermBound(x: int, y: int)
    requires 0 <= x < TWO_53 && 0 <= y < TWO_53
    ensures 0 <= x * y <= TWO_53 * TWO_53 && 0 <= x * (19 * y) <= 19 * (TWO_53 * TWO_53)
  {
    M.ProductBound(x, y, TWO_53, TWO_53);
    assert x * (19 * y) == 19 * (x * y);
  }

  lemma RowBound(a: Fe, y0: int, y1: int, y2: int, y3: int, y4: int, w: int)
    requires Loose(a) && 0 <= w && (forall i :: 0 <= i < 5 ==> 0 <= a[i])
    requires 0 <= a[0] * y0 <= w && 0 <= a[1] * y1 <= w && 0 <= a[2] * y2 <= w && 0 <= a[3] * y3 <= w && 0 <= a[4] * y4 <= w
    ensures 0 <= a[0] * y0 + a[1] * y1 + a[2] * y2 + a[3] * y3 + a[4] * y4 <= 5 * w
  {
  }

  lemma ProductsWide(a: Fe, b: Fe)
    requires Loose(a) && Loose(b)
    ensures IsWide(Products(a, b)) && forall i :: 0 <= i < 5 ==> FitsU64(19 * b[i])
  {
    forall i, j | 0 <= i < 5 && 0 <= j < 5
      ensures 0 <= a[i] * b[j] <= TWO_53 * TWO_53 && 0 <= a[i] * (19 * b[j]) <= 19 * (TWO_53 * TWO_53)
    {
      TermBound(a[i], b[j]);
    }
    var w := 19 * (TWO_53 * TWO_53);
    RowBound(a, b[0], 19 * b[4], 19 * b[3], 19 * b[2], 19 * b[1], w);
    RowBound(a, b[1], b[0], 19 * b[4], 19 * b[3], 19 * b[2], w);
    RowBound(a, b[2], b[1], b[0], 19 * b[4], 19 * b[3], w);
    RowBound(a, b[3], b[2], b[1], b[0], 19 * b[4], w);
    RowBound(a, b[4], b[3], b[2], b[1], b[0], TWO_53 * TWO_53);
  }

  /** A carry chain over wide sums, then one over words. */
  function ReduceWide(t: seq<int>): Fe
    requires |t| == 5
  {
    Carry(Carry(t))
  }

  lemma WideCarry(t: seq<int>)
    requires IsWide(t)
    ensures IsWords(Carry(t)) && 0 <= CarryChain(t).out < 0x400_0000_0000_0000
  {
  }

  lemma ReduceWideExact(t: seq<int>)
    requires IsWide(t)
    ensures Tight(ReduceWide(t)) && Value(ReduceWide(t)) % P == Value(t) % P
  {
    hide Eval, Carry;
    WideCarry(t);
    CarryValue(t);
    CarryTight(Carry(t));
    CarryValue(Carry(t));
  }

  function Mul(a: Fe, b: Fe): Fe
    requires |a| == |b| == 5
  {
    ReduceWide(Products(a, b))
  }

  /** Main result: multiplication is exact modulo p, and its result is tight. */
  lemma MulExact(a: Fe, b: Fe)
    requires Loose(a) && Loose(b)
    ensures Tight(Mul(a, b)) && Value(Mul(a, b)) % P == (Value(a) * Value(b)) % P
  {
    hide Eval, Pow, Carry, Products, F.Product, IsWide;
    ProductsWide(a, b);
    ReduceWideExact(Products(a, b));
    ProductsAre(a, b);
    FoldingFactor();
    F.EvalProduct(a, b, 19, TWO_51, P);
  }

  /** The carry into limb i. */
  function CarryAt(t: seq<int>, i: nat): int
    requires |t| == 5 && i <= 5
    decreases i, t
  {
    if i == 0 then 0 else (t[i - 1] + CarryAt(t, i - 1)) / TWO_51
  }

  lemma ChainAt(t: seq<int>)
    requires |t| == 5
    ensures CarryChain(t).out == CarryAt(t, 5) && |CarryChain(t).limbs| == 5
    ensures forall i :: 0 <= i < 5 ==> CarryChain(t).limbs[i] == (t[i] + CarryAt(t, i)) % TWO_51
  {
    hide CarryAt;
    CarryNext(t, 0);
    CarryNext(t, 1);
    CarryNext(t, 2);
    CarryNext(t, 3);
    CarryNext(t, 4);
  }

  lemma CarryNext(t: seq<int>, i: nat)
    requires |t| == 5 && i < 5
    ensures CarryAt(t, i + 1) == (t[i] + CarryAt(t, i)) / TWO_51 && CarryAt(t, 0) == 0
  {
  }

  lemma {:induction false} CarryBound(t: seq<int>, i: nat)
    requires IsWide(t) && i <= 5
    ensures 0 <= CarryAt(t, i) <= 0x5F_FFFF_FFFF_FFFF_FF && (i < 5 ==> FitsU128(t[i] + CarryAt(t, i)))
    decreases i
  {
    if i > 0 {
      CarryBound(t, i - 1);
      CarryNext(t, i - 1);
      hide CarryAt;
    }
  }

  /** The wide carry loop of `reduce_wide`, in 128-bit words. */
  method WideChain(t: seq<int>) returns (r: array<int>, carry: int)
    requires IsWide(t) && |t| == 5
    ensures fresh(r) && r.Length == 5 && r[..] == CarryChain(t).limbs && carry == CarryChain(t).out
  {
    hide CarryChain, CarryAt, IsWide;
    r := new int[5](_ => 0);
    carry := 0;
    CarryNext(t, 0);
    for i := 0 to 5
      invariant forall k :: 0 <= k < i ==> r[k] == (t[k] + CarryAt(t, k)) % TWO_51
      invariant carry == CarryAt(t, i)
    {
      CarryBound(t, i);
      assert FitsU128(t[i] + carry);
      var v := t[i] + carry;
      LowWord(v);
      r[i] := (v % TWO_64) % TWO_51;
      CarryNext(t, i);
      carry := v / TWO_51;
    }
    ChainAt(t);
  }

  method ReduceWideLoop(t: seq<int>) returns (r: array<int>)
    requires IsWide(t) && |t| == 5
    ensures fresh(r) && r.Length == 5 && r[..] == ReduceWide(t)
  {
    hide CarryChain, Carry, IsWide;
    var carry;
    r, carry := WideChain(t);
    ghost var limbs := r[..];
    WideCarry(t);
    CarryIs(t, limbs);
    M.Small(carry, TWO_64);
    r[0] := r[0] + (carry % TWO_64) * 19;
    assert r[..] == limbs[0 := limbs[0] + 19 * carry];
    CarryInPlace(r);
    ReduceWideIs(t);
  }

  lemma CarryIs(t: seq<int>, limbs: seq<int>)
    requires |t| == 5 && limbs == CarryChain(t).limbs
    ensures |limbs| == 5 && Carry(t) == limbs[0 := limbs[0] + 19 * CarryChain(t).out]
  {
  }

  lemma ReduceWideIs(t: seq<int>)
    requires |t| == 5
    ensures ReduceWide(t) == Carry(Carry(t))
  {
  }

  lemma LowWord(v: int)
    requires 0 <= v
    ensures (v % TWO_64) % TWO_51 == v % TWO_51
  {
    var q := v / TWO_64;
    assert v == v % TWO_64 + (8192 * q) * TWO_51;
    M.Multiple(v, v % TWO_64, 8192 * q, TWO_51);
  }

  /** Multiplication by a small constant. */
  function Scaled(a: Fe, k: nat): (t: seq<int>)
    requires |a| == 5
    ensures |t| == 5
  {
    [a[0] * k, a[1] * k, a[2] * k, a[3] * k, a[4] * k]
  }

  function MulSmall(a: Fe, k: nat): Fe
    requires |a| == 5
  {
    ReduceWide(Scaled(a, k))
  }

  lemma {:induction false} ScaledValue(a: Fe, k: nat)
    requires |a| == 5
    ensures Value(Scaled(a, k)) == Value(a) * k
  {
    var zeros := [0, 0, 0, 0, 0];
    F.EvalZero(zeros, TWO_51);
    F.EvalSumExact(Scaled(a, k), zeros, k, a, TWO_51);
  }

  lemma MulSmallExact(a: Fe, k: nat)
    requires Loose(a) && k < 0x2_0000
    ensures Tight(MulSmall(a, k)) && Value(MulSmall(a, k)) % P == (Value(a) * k) % P
  {
    hide Eval, Carry;
    var t := Scaled(a, k);
    forall i | 0 <= i < 5
      ensures 0 <= t[i] <= 5 * (TWO_53 * TWO_53)
    {
      M.ProductBound(a[i], k, TWO_53, 0x2_0000);
    }
    ScaledValue(a, k);
    ReduceWideExact(t);
  }

  // ---------------------------------------------------------------- powers

  /** x stands for z^e. */
  ghost predicate IsPower(x: Fe, z: Fe, e: nat) {
    Tight(x) && Value(x) % P == Pow(Value(z), e) % P
  }

  lemma TightIsLoose(l: Fe)
    requires Tight(l)
    ensures Loose(l)
  {
  }

  lemma MulPower(x: Fe, y: Fe, z: Fe, a: nat, b: nat)
    requires IsPower(x, z, a) && IsPower(y, z, b)
    ensures |Mul(x, y)| == 5 && IsPower(Mul(x, y), z, a + b)
  {
    hide Eval, Pow, Mul;
    TightIsLoose(x);
    TightIsLoose(y);
    MulExact(x, y);
    M.Mul(Value(x), Pow(Value(z), a), Value(y), Pow(Value(z), b), P);
    PowAdd(Value(z), a, b);
  }

  function Square(a: Fe): Fe
    requires |a| == 5
  {
    Mul(a, a)
  }

  /** Doubling the exponent n times. */
  function Doublings(e: nat, n: nat): nat
    decreases n, e
  {
    if n == 0 then e else 2 * Doublings(e, n - 1)
  }

  method SquareTimes(x: Fe, n: nat, ghost z: Fe, ghost e: nat) returns (t: Fe)
    requires IsPower(x, z, e)
    ensures IsPower(t, z, Doublings(e, n))
  {
    hide IsPower, Mul;
    PowerLength(x, z, e);
    t := x;
    for i := 0 to n
      invariant IsPower(t, z, Doublings(e, i))
    {
      PowerLength(t, z, Doublings(e, i));
      MulPower(t, t, z, Doublings(e, i), Doublings(e, i));
      t := Square(t);
    }
  }

  lemma PowerLength(x: Fe, z: Fe, e: nat)
    requires IsPower(x, z, e)
    ensures |x| == 5
  {
  }

  lemma FirstPower(z: Fe)
    requires Tight(z)
    ensures IsPower(z, z, 1)
  {
    assert Pow(Value(z), 1) == Value(z) * Pow(Value(z), 0);
  }

  method Times(x: Fe, y: Fe, ghost z: Fe, ghost a: nat, ghost b: nat) returns (r: Fe)
    requires IsPower(x, z, a) && IsPower(y, z, b)
    ensures IsPower(r, z, a + b)
  {
    PowerLength(x, z, a);
    PowerLength(y, z, b);
    MulPower(x, y, z, a, b);
    r := Mul(x, y);
  }

  /** n ones in binary. */
  function Ones(n: nat): nat {
    if n == 0 then 0 else 2 * Ones(n - 1) + 1
  }

  /** n ones followed by m ones. */
  lemma {:induction false} OnesJoin(n: nat, m: nat)
    ensures Doublings(Ones(n), m) + Ones(m) == Ones(n + m)
    decreases m
  {
    if m > 0 {
      OnesJoin(n, m - 1);
    }
  }

  lemma TwoTo255()
    ensures Pow(2, 255) == TWO_255 && Pow(2, 250) * 32 == TWO_255
  {
    assert Pow(2, 5) == 32;
    hide Pow;
    PowAdd(2, 5, 5);
    assert Pow(2, 10) == 0x400;
    PowAdd(2, 10, 10);
    assert Pow(2, 20) == 0x10_0000;
    PowAdd(2, 20, 20);
    assert Pow(2, 40) == 0x100_0000_0000;
    PowAdd(2, 40, 10);
    assert Pow(2, 50) == 0x4_0000_0000_0000;
    PowAdd(2, 50, 50);
    assert Pow(2, 100) == 0x10_0000_0000_0000_0000_0000_0000;
    PowAdd(2, 100, 100);
    PowAdd(2, 200, 50);
    assert Pow(2, 250) == 0x400_0000_0000_0000_0000_0000_0000_0000_0000_0000_0000_0000_0000_0000_0000_0000;
    PowAdd(2, 250, 5);
  }

  lemma {:induction false} OnesIs(n: nat)
    ensures Ones(n) == Pow(2, n) - 1
  {
    if n > 0 {
      OnesIs(n - 1);
    }
  }

  lemma {:induction false} DoublingsIs(e: nat, n: nat)
    ensures Doublings(e, n) == e * Pow(2, n)
    decreases n
  {
    if n > 0 {
      DoublingsIs(e, n - 1);
      M.Assoc(e, 2, Pow(2, n - 1));
    }
  }

  /** z^(2^n - 1) and z^(2^m - 1) give z^(2^(n+m) - 1). */
  method Extend(x: Fe, n: nat, y: Fe, m: nat, ghost z: Fe) returns (r: Fe)
    requires IsPower(x, z, Ones(n)) && IsPower(y, z, Ones(m))
    ensures IsPower(r, z, Ones(n + m))
  {
    hide IsPower, Ones, Doublings;
    var t := SquareTimes(x, m, z, Ones(n));
    OnesJoin(n, m);
    r := Times(t, y, z, Doublings(Ones(n), m), Ones(m));
  }

  lemma SmallExponents()
    ensures Doublings(1, 1) == 2 && Doublings(2, 2) == 8 && Doublings(11, 1) == 22 && Ones(5) == 31
  {
    DoublingsIs(1, 1);
    DoublingsIs(2, 2);
    DoublingsIs(11, 1);
    OnesIs(5);
  }

  lemma LastExponent()
    ensures Doublings(Ones(250), 5) + 11 == INVERSE_EXPONENT == P - 2
  {
    OnesIs(250);
    DoublingsIs(Ones(250), 5);
    TwoTo255();
    assert Pow(2, 5) == 32;
    hide Pow, Ones, Doublings;
    assert (Pow(2, 250) - 1) * 32 == Pow(2, 250) * 32 - 32;
  }

  /** Main result: the addition chain raises to the power p - 2. */
  method Invert(z: Fe) returns (r: Fe)
    requires Tight(z)
    ensures IsPower(r, z, INVERSE_EXPONENT)
  {
    FirstPower(z);
    SmallExponents();
    LastExponent();
    hide *;
    var z2 := SquareTimes(z, 1, z, 1);
    var z8 := SquareTimes(z2, 2, z, 2);
    var z9 := Times(z, z8, z, 1, 8);
    var z11 := Times(z2, z9, z, 2, 9);
    var z22 := SquareTimes(z11, 1, z, 11);
    var z5 := Times(z9, z22, z, 9, 22);
    var z10 := Extend(z5, 5, z5, 5, z);
    var z20 := Extend(z10, 10, z10, 10, z);
    var z40 := Extend(z20, 20, z20, 20, z);
    var z50 := Extend(z40, 40, z10, 10, z);
    var z100 := Extend(z50, 50, z50, 50, z);
    var z200 := Extend(z100, 100, z100, 100, z);
    var z250 := Extend(z200, 200, z50, 50, z);
    var t := SquareTimes(z250, 5, z, Ones(250));
    r := Times(t, z11, z, Doublings(Ones(250), 5), 11);
  }

  // ---------------------------------------------------------------- bytes

  const TWO_13: nat := 0x2000
  const TWO_26: nat := 0x400_0000
  const TWO_39: nat := 0x80_0000_0000
  const TWO_12: nat := 0x1000
  const TWO_25: nat := 0x200_0000
  const TWO_38: nat := 0x40_0000_0000

  lemma ShiftPowers()
    ensures Pow(2, 12) == TWO_12 && Pow(2, 13) == TWO_13 && Pow(2, 25) == TWO_25 && Pow(2, 26) == TWO_26
    ensures Pow(2, 38) == TWO_38 && Pow(2, 39) == TWO_39 && Pow(2, 51) == TWO_51
  {
    assert Pow(2, 3) == 8;
    PowAdd(2, 3, 3);
    PowAdd(2, 6, 6);
    PowAdd(2, 1, 12);
    PowAdd(2, 12, 13);
    PowAdd(2, 1, 25);
    PowAdd(2, 12, 26);
    PowAdd(2, 1, 38);
    PowAdd(2, 12, 39);
  }

  /** Eight bytes, least significant first. */
  function Load(bytes: seq<int>, i: nat): int
    requires i + 8 <= |bytes|
  {
    Eval(bytes[i..i + 8], 256)
  }

  /** Or of what is left of one word and the next word shifted up, in 64 bits. */
  function Joined(x: nat, y: nat, high: nat, up: nat): nat
    requires high > 0
  {
    Or(x / high, (y * up) % TWO_64)
  }

  /** A shifted word drops its high bits. */
  lemma ShiftDrops(y: nat, up: nat, keep: nat)
    requires up > 0 && up * keep == TWO_64
    ensures (y * up) % TWO_64 == (y % keep) * up
  {
    var q := y / keep;
    assert y == keep * q + y % keep;
    assert (keep * q + y % keep) * up == (keep * up) * q + (y % keep) * up;
    M.Multiple(y * up, (y % keep) * up, q, TWO_64);
    M.ProductBound(y % keep, up, keep - 1, up);
    assert (keep - 1) * up == keep * up - up;
    M.Small((y % keep) * up, TWO_64);
  }

  lemma JoinedIs(x: nat, y: nat, high: nat, s: nat, keep: nat)
    requires x < TWO_64 && high > 0 && x / high < Pow(2, s) && Pow(2, s) * keep == TWO_64
    ensures Pow(2, s) > 0 && Joined(x, y, high, Pow(2, s)) == x / high + (y % keep) * Pow(2, s)
  {
    hide Or;
    PowPositive(2, s);
    ShiftDrops(y, Pow(2, s), keep);
    OrDisjoint(x / high, y % keep, s);
  }

  /** The repacking of four words of 64 bits into five limbs of 51, the top bit dropped. */
  function Repacked(x0: nat, x1: nat, x2: nat, x3: nat): (l: Fe)
    ensures |l| == 5
  {
    [x0 % TWO_51, Joined(x0, x1, TWO_51, TWO_13) % TWO_51, Joined(x1, x2, TWO_38, TWO_26) % TWO_51,
     Joined(x2, x3, TWO_25, TWO_39) % TWO_51, (x3 / TWO_12) % TWO_51]
  }

  lemma RepackedLimbs(x0: nat, x1: nat, x2: nat, x3: nat)
    requires x0 < TWO_64 && x1 < TWO_64 && x2 < TWO_64 && x3 < TWO_64
    ensures Repacked(x0, x1, x2, x3) == [x0 % TWO_51, x0 / TWO_51 + (x1 % TWO_38) * TWO_13, x1 / TWO_38 + (x2 % TWO_25) * TWO_26,
                                         x2 / TWO_25 + (x3 % TWO_12) * TWO_39, (x3 / TWO_12) % TWO_51]
  {
    ShiftPowers();
    hide Pow, Joined;
    JoinedIs(x0, x1, TWO_51, 13, TWO_51);
    JoinedIs(x1, x2, TWO_38, 26, TWO_38);
    JoinedIs(x2, x3, TWO_25, 39, TWO_25);
    CutTwice(x1, x2, x3);
    LowOf(x0 / TWO_51, x1 % TWO_51, TWO_13, TWO_38);
    LowOf(x1 / TWO_38, x2 % TWO_38, TWO_26, TWO_25);
    LowOf(x2 / TWO_25, x3 % TWO_25, TWO_39, TWO_12);
  }

  /** Cutting a word twice is cutting it once. */
  lemma CutTwice(x1: nat, x2: nat, x3: nat)
    ensures (x1 % TWO_51) % TWO_38 == x1 % TWO_38 && (x2 % TWO_38) % TWO_25 == x2 % TWO_25 && (x3 % TWO_25) % TWO_12 == x3 % TWO_12
  {
    M.Multiple(x1, x1 % TWO_51, 8192 * (x1 / TWO_51), TWO_38);
    M.Multiple(x2, x2 % TWO_38, 8192 * (x2 / TWO_38), TWO_25);
    M.Multiple(x3, x3 % TWO_25, 8192 * (x3 / TWO_25), TWO_12);
  }

  /** Of a joined word, 51 bits remain. */
  lemma LowOf(h: nat, r: nat, up: nat, low: nat)
    requires 0 < up && h < up && low > 0 && up * low == TWO_51
    ensures (h + r * up) % TWO_51 == h + (r % low) * up
  {
    var j, m := r / low, r % low;
    Distribute(m, low, j, up);
    M.Multiple(h + r * up, h + m * up, j, TWO_51);
    BelowProduct(h, m, up, low);
    M.Small(h + m * up, TWO_51);
  }

  lemma Distribute(m: int, low: int, j: int, up: int)
    ensures (m + low * j) * up == m * up + j * (up * low)
  {
    assert (low * j) * up == j * (up * low) by {
      M.Assoc(j, up, low);
      M.Assoc(up, low, j);
    }
  }

  lemma BelowProduct(h: nat, m: nat, up: nat, low: nat)
    requires h < up && m < low
    ensures 0 <= h + m * up < up * low
  {
    M.ProductBound(m, up, low - 1, up);
    assert (low - 1) * up == up * low - up;
  }

  /** The four words as one number. */
  function Number(x0: int, x1: int, x2: int, x3: int): int {
    x0 + TWO_64 * (x1 + TWO_64 * (x2 + TWO_64 * x3))
  }

  /** Each word cut where the limbs end. */
  lemma WordParts(x0: nat, x1: nat, x2: nat, x3: nat)
    ensures x0 == x0 % TWO_51 + TWO_51 * (x0 / TWO_51) && x1 == x1 % TWO_38 + TWO_38 * (x1 / TWO_38)
    ensures x2 == x2 % TWO_25 + TWO_25 * (x2 / TWO_25) && x3 == x3 % TWO_12 + TWO_12 * (x3 / TWO_12)
    ensures x3 / TWO_12 == (x3 / TWO_12) % TWO_51 + TWO_51 * (x3 / TWO_12 / TWO_51)
  {
  }

  lemma Reassembled(a0: int, b0: int, a1: int, b1: int, a2: int, b2: int, a3: int, c3: int, top: int)
    ensures var x0, x1, x2, x3 := a0 + TWO_51 * b0, a1 + TWO_38 * b1, a2 + TWO_25 * b2, a3 + TWO_12 * (c3 + TWO_51 * top);
      var l := [a0, b0 + a1 * TWO_13, b1 + a2 * TWO_26, b2 + a3 * TWO_39, c3];
      Number(x0, x1, x2, x3) == Value(l) + TWO_255 * top
  {
    ValueIs([a0, b0 + a1 * TWO_13, b1 + a2 * TWO_26, b2 + a3 * TWO_39, c3]);
    hide Eval;
  }

  lemma RepackedDigits(x0: nat, x1: nat, x2: nat, x3: nat)
    requires x0 < TWO_64 && x1 < TWO_64 && x2 < TWO_64 && x3 < TWO_64
    ensures IsDigits(Repacked(x0, x1, x2, x3), TWO_51)
  {
    hide Joined;
  }

  /** Repacking keeps the number but for its top bit. */
  lemma RepackedValue(x0: nat, x1: nat, x2: nat, x3: nat)
    requires x0 < TWO_64 && x1 < TWO_64 && x2 < TWO_64 && x3 < TWO_64
    ensures IsDigits(Repacked(x0, x1, x2, x3), TWO_51)
    ensures Value(Repacked(x0, x1, x2, x3)) == Number(x0, x1, x2, x3) % TWO_255
  {
    hide Eval, Pow, Repacked, Number;
    RepackedDigits(x0, x1, x2, x3);
    RepackedLimbs(x0, x1, x2, x3);
    WordParts(x0, x1, x2, x3);
    var l, top := Repacked(x0, x1, x2, x3), x3 / TWO_12 / TWO_51;
    Reassembled(x0 % TWO_51, x0 / TWO_51, x1 % TWO_38, x1 / TWO_38, x2 % TWO_25, x2 / TWO_25, x3 % TWO_12, (x3 / TWO_12) % TWO_51, top);
    Powers();
    ValueBound(l, TWO_51);
    M.Multiple(Number(x0, x1, x2, x3), Value(l), top, TWO_255);
    M.Small(Value(l), TWO_255);
  }

  lemma EightBytes()
    ensures Pow(256, 8) == TWO_64 && Pow(2, 8) == 256 && Pow(256, 0) == 1
  {
    assert Pow(256, 2) == 0x1_0000;
    PowAdd(256, 2, 2);
    PowAdd(256, 4, 4);
    PowAdd(2, 4, 4);
  }

  lemma LoadBound(bytes: seq<int>, i: nat)
    requires i + 8 <= |bytes| && IsDigits(bytes, 256)
    ensures 0 <= Load(bytes, i) < TWO_64
  {
    EightBytes();
    hide Pow, Eval;
    ValueBound(bytes[i..i + 8], 256);
  }

  lemma {:induction false} ShiftByBytes(k: nat)
    ensures 0 <= 8 * k && Pow(2, 8 * k) == Pow(256, k)
  {
    EightBytes();
    PowPow(2, 8, k);
    hide Pow;
  }

  lemma LoadNext(bytes: seq<int>, i: nat, k: nat, x: nat)
    requires i + k < |bytes| && IsDigits(bytes, 256) && x == Eval(bytes[i..i + k], 256)
    ensures Pow(2, 8 * k) >= 1 && Or(x, bytes[i + k] * Pow(2, 8 * k)) == Eval(bytes[i..i + k + 1], 256)
  {
    hide Or, Eval, Pow;
    ShiftByBytes(k);
    ValueBound(bytes[i..i + k], 256);
    PowPositive(2, 8 * k);
    OrDisjoint(x, bytes[i + k], 8 * k);
    assert bytes[i..i + k + 1] == bytes[i..i + k] + [bytes[i + k]];
    ValueAppend(bytes[i..i + k], bytes[i + k], 256);
  }

  /** The load loop: bytes are or-ed in above one another. */
  method LoadWord(bytes: seq<int>, i: nat) returns (x: nat)
    requires i + 8 <= |bytes| && IsDigits(bytes, 256)
    ensures x == Load(bytes, i)
  {
    assert bytes[i..i + 0] == [] && Eval([], 256) == 0;
    x := 0;
    for k := 0 to 8
      invariant x == Eval(bytes[i..i + k], 256)
    {
      LoadNext(bytes, i, k, x);
      PowPositive(2, 8 * k);
      M.ProductBound(0, 0, bytes[i + k], Pow(2, 8 * k));
      x := Or(x, bytes[i + k] * Pow(2, 8 * k));
    }
  }

  lemma LoadsAreNumber(bytes: seq<int>)
    requires |bytes| == 32 && IsDigits(bytes, 256)
    ensures Number(Load(bytes, 0), Load(bytes, 8), Load(bytes, 16), Load(bytes, 24)) == Eval(bytes, 256)
  {
    hide Eval, Pow;
    EightBytes();
    WordOff(bytes);
    WordOff(bytes[8..]);
    WordOff(bytes[16..]);
    WordOff(bytes[24..]);
    assert bytes[8..][8..] == bytes[16..] && bytes[16..][8..] == bytes[24..] && bytes[24..][8..] == [];
    assert bytes[8..][..8] == bytes[8..16] && bytes[16..][..8] == bytes[16..24] && bytes[24..][..8] == bytes[24..32];
    assert bytes[..8] == bytes[0..8];
    EmptyValue();
  }

  lemma EmptyValue()
    ensures Eval([], 256) == 0
  {
  }

  lemma WordOff(b: seq<int>)
    requires |b| >= 8
    ensures Eval(b, 256) == Eval(b[..8], 256) + TWO_64 * Eval(b[8..], 256)
  {
    hide Eval, Pow;
    EightBytes();
    assert b == b[..8] + b[8..];
    EvalConcat(b[..8], b[8..], 256);
  }

  function FromBytes(bytes: seq<int>): (l: Fe)
    requires |bytes| == 32 && IsDigits(bytes, 256)
    ensures |l| == 5
  {
    LoadBound(bytes, 0);
    LoadBound(bytes, 8);
    LoadBound(bytes, 16);
    LoadBound(bytes, 24);
    Repacked(Load(bytes, 0), Load(bytes, 8), Load(bytes, 16), Load(bytes, 24))
  }

  /** Main result: 32 bytes are read as their number without its top bit. */
  lemma FromBytesExact(bytes: seq<int>)
    requires |bytes| == 32 && IsDigits(bytes, 256)
    ensures Tight(FromBytes(bytes)) && IsDigits(FromBytes(bytes), TWO_51) && Value(FromBytes(bytes)) == Eval(bytes, 256) % TWO_255
  {
    hide Eval, Repacked, Load, Number;
    LoadBound(bytes, 0);
    LoadBound(bytes, 8);
    LoadBound(bytes, 16);
    LoadBound(bytes, 24);
    RepackedValue(Load(bytes, 0), Load(bytes, 8), Load(bytes, 16), Load(bytes, 24));
    LoadsAreNumber(bytes);
  }

  method ReadBytes(bytes: seq<int>) returns (l: Fe)
    requires |bytes| == 32 && IsDigits(bytes, 256)
    ensures l == FromBytes(bytes)
  {
    hide Eval, Repacked;
    var x0 := LoadWord(bytes, 0);
    var x1 := LoadWord(bytes, 8);
    var x2 := LoadWord(bytes, 16);
    var x3 := LoadWord(bytes, 24);
    l := Repacked(x0, x1, x2, x3);
  }

  // ---------------------------------------------------------------- writing bytes

  /** Four words out of five limbs. */
  function Packed(l: Fe): (w: seq<nat>)
    requires |l| == 5 && IsDigits(l, TWO_51)
    ensures |w| == 4
  {
    [Joined(l[0], l[1], 1, TWO_51), Joined(l[1], l[2], TWO_13, TWO_38), Joined(l[2], l[3], TWO_26, TWO_25), Joined(l[3], l[4], TWO_39, TWO_12)]
  }

  lemma PackedWords(l: Fe)
    requires |l| == 5 && IsDigits(l, TWO_51)
    ensures Packed(l) == [l[0] + (l[1] % TWO_13) * TWO_51, l[1] / TWO_13 + (l[2] % TWO_26) * TWO_38,
                          l[2] / TWO_26 + (l[3] % TWO_39) * TWO_25, l[3] / TWO_39 + l[4] * TWO_12]
  {
    ShiftPowers();
    hide Pow, Joined;
    JoinedIs(l[0], l[1], 1, 51, TWO_13);
    JoinedIs(l[1], l[2], TWO_13, 38, TWO_26);
    JoinedIs(l[2], l[3], TWO_26, 25, TWO_39);
    JoinedIs(l[3], l[4], TWO_39, 12, 0x10_0000_0000_0000);
    M.Small(l[4], 0x10_0000_0000_0000);
  }

  lemma PackedValue(l: Fe)
    requires |l| == 5 && IsDigits(l, TWO_51)
    ensures var w := Packed(l);
      w[0] < TWO_64 && w[1] < TWO_64 && w[2] < TWO_64 && w[3] < TWO_64 && Number(w[0], w[1], w[2], w[3]) == Value(l)
  {
    PackedWords(l);
    hide Packed, Eval;
    ValueIs(l);
    LimbParts(l[1], l[2], l[3]);
  }

  lemma LimbParts(l1: int, l2: int, l3: int)
    ensures l1 == l1 % TWO_13 + TWO_13 * (l1 / TWO_13) && l2 == l2 % TWO_26 + TWO_26 * (l2 / TWO_26) && l3 == l3 % TWO_39 + TWO_39 * (l3 / TWO_39)
  {
  }

  function WordBytes(w: nat): (b: seq<int>)
    ensures |b| == 8 && IsDigits(b, 256)
  {
    OfValueIsDigits(w, 8, 256);
    OfValue(w, 8, 256)
  }

  lemma WordBytesValue(w: nat)
    requires w < TWO_64
    ensures Eval(WordBytes(w), 256) == w
  {
    EightBytes();
    hide Pow, Eval;
    ValueOfValue(w, 8, 256);
  }

  function WordsBytes(w: seq<nat>): (b: seq<int>)
    requires |w| == 4
    ensures |b| == 32 && IsDigits(b, 256)
  {
    WordBytes(w[0]) + WordBytes(w[1]) + WordBytes(w[2]) + WordBytes(w[3])
  }

  lemma WordsBytesValue(w: seq<nat>)
    requires |w| == 4 && w[0] < TWO_64 && w[1] < TWO_64 && w[2] < TWO_64 && w[3] < TWO_64
    ensures Eval(WordsBytes(w), 256) == Number(w[0], w[1], w[2], w[3])
  {
    hide Eval, WordBytes;
    WordBytesValue(w[0]);
    WordBytesValue(w[1]);
    WordBytesValue(w[2]);
    WordBytesValue(w[3]);
    var b := WordsBytes(w);
    LoadsAreNumber(b);
    assert b[0..8] == WordBytes(w[0]) && b[8..16] == WordBytes(w[1]) && b[16..24] == WordBytes(w[2]) && b[24..32] == WordBytes(w[3]);
  }

  function ToBytes(l: Fe): (b: seq<int>)
    requires IsWords(l)
    ensures |b| == 32 && IsDigits(b, 256)
  {
    FrozenIsResidue(l);
    WordsBytes(Packed(Frozen(l)))
  }

  /** Main result: an element is written as its residue in [0, p). */
  lemma ToBytesExact(l: Fe)
    requires IsWords(l)
    ensures Eval(ToBytes(l), 256) == Value(l) % P
  {
    hide Eval, Packed, Frozen, WordsBytes, Number;
    FrozenIsResidue(l);
    PackedValue(Frozen(l));
    WordsBytesValue(Packed(Frozen(l)));
  }

  method WriteBytes(l: Fe) returns (b: seq<int>)
    requires IsWords(l)
    ensures b == ToBytes(l)
  {
    hide Packed, Frozen, WordBytes;
    var t := new int[5](i requires 0 <= i < 5 => l[i]);
    assert t[..] == l;
    FrozenIsResidue(l);
    FreezeInPlace(t);
    var packed := Packed(t[..]);
    b := [];
    for i := 0 to 4
      invariant b == if i == 0 then [] else if i == 1 then WordBytes(packed[0]) else if i == 2 then WordBytes(packed[0]) + WordBytes(packed[1])
                     else if i == 3 then WordBytes(packed[0]) + WordBytes(packed[1]) + WordBytes(packed[2]) else WordsBytes(packed)
    {
      b := b + WordBytes(packed[i]);
    }
  }

  /** Reading back what was written gives the residue. */
  lemma ReadOfWritten(l: Fe)
    requires IsWords(l)
    ensures FromBytes(ToBytes(l)) == Frozen(l)
  {
    hide Eval, Frozen, FromBytes, ToBytes, Tight;
    ToBytesExact(l);
    FromBytesExact(ToBytes(l));
    FrozenIsResidue(l);
    Powers();
    M.Reduce(Value(l), P);
    M.Small(Value(l) % P, TWO_255);
    ValueInjective(FromBytes(ToBytes(l)), Frozen(l), TWO_51);
  }

  /** Writing what was read drops the top bit and reduces the number. */
  lemma WrittenOfRead(bytes: seq<int>, l: Fe)
    requires |bytes| == 32 && IsDigits(bytes, 256) && l == FromBytes(bytes)
    ensures IsWords(l)
    ensures Eval(ToBytes(l), 256) == (Eval(bytes, 256) % TWO_255) % P
  {
    FromBytesExact(bytes);
    TightIsWords(l);
    hide Eval, FromBytes, ToBytes, Tight, IsWords;
    ToBytesExact(l);
  }
}
