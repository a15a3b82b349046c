/** Bitwise and, exclusive or, and the masks that select without branching. */
module Masks {
  import opened NttSpec
  import opened Digits

  function And(x: nat, y: nat): nat
    decreases x
  {
    if x == 0 then 0 else (if x % 2 == 1 && y % 2 == 1 then 1 else 0) + 2 * And(x / 2, y / 2)
  }

  function Xor(x: nat, y: nat): nat
    decreases x + y
  {
    if x == 0 && y == 0 then 0 else (if x % 2 != y % 2 then 1 else 0) + 2 * Xor(x / 2, y / 2)
  }

  lemma {:induction false} XorBound(x: nat, y: nat, n: nat)
    requires x < Pow(2, n) && y < Pow(2, n)
    ensures Xor(x, y) < Pow(2, n)
    decreases n
  {
    if x != 0 || y != 0 {
      XorBound(x / 2, y / 2, n - 1);
    }
  }

  lemma {:induction false} XorSymmetric(x: nat, y: nat)
    ensures Xor(x, y) == Xor(y, x)
    decreases x + y
  {
    if x != 0 || y != 0 {
      XorSymmetric(x / 2, y / 2);
    }
  }

  /** Combining twice with the same value changes nothing. */
  lemma {:induction false} XorCancels(x: nat, y: nat)
    ensures Xor(x, Xor(x, y)) == y
    decreases x + y
  {
    if x != 0 || y != 0 {
      XorCancels(x / 2, y / 2);
    }
  }

  lemma {:induction false} XorNothing(x: nat)
    ensures Xor(x, 0) == x
  {
    if x != 0 {
      XorNothing(x / 2);
    }
  }

  /** The mask of n ones keeps a number of n bits. */
  lemma {:induction false} AndOnes(x: nat, n: nat)
    requires x < Pow(2, n)
    ensures Pow(2, n) >= 1 && And(Pow(2, n) - 1, x) == x
    decreases n
  {
    if n > 0 {
      AndOnes(x / 2, n - 1);
    }
  }

  /** All ones or all zeros, the two's complement of one bit. */
  function MaskOf(bit: nat, n: nat): nat
    requires bit <= 1
  {
    PowPositive(2, n);
    if bit == 0 then 0 else Pow(2, n) - 1
  }

  /** x becomes y where the mask is ones, and stays where it is zeros. */
  lemma Selected(x: nat, y: nat, bit: nat, n: nat)
    requires bit <= 1 && x < Pow(2, n) && y < Pow(2, n)
    ensures Xor(x, And(MaskOf(bit, n), Xor(y, x))) == if bit == 1 then y else x
    ensures Xor(x, And(MaskOf(bit, n), Xor(x, y))) == if bit == 1 then y else x
    ensures Xor(y, And(MaskOf(bit, n), Xor(x, y))) == if bit == 1 then x else y
  {
    hide Xor;
    XorBound(x, y, n);
    XorSymmetric(x, y);
    if bit == 1 {
      hide And;
      AndOnes(Xor(x, y), n);
      XorCancels(x, y);
      XorCancels(y, x);
    } else {
      XorNothing(x);
      XorNothing(y);
    }
  }

  /** A mask of low ones takes the remainder. */
  lemma {:induction false} AndModulo(x: nat, n: nat)
    ensures Pow(2, n) >= 1 && And(x, Pow(2, n) - 1) == x % Pow(2, n)
    decreases n
  {
    PowPositive(2, n);
    if n == 0 {
      AndNothing(x);
    } else {
      AndModulo(x / 2, n - 1);
      LowBit(x, Pow(2, n - 1));
    }
  }

  lemma {:induction false} AndNothing(x: nat)
    ensures And(x, 0) == 0
  {
    if x != 0 {
      AndNothing(x / 2);
    }
  }

  lemma LowBit(x: nat, p: nat)
    requires p >= 1
    ensures x % (2 * p) == x % 2 + 2 * ((x / 2) % p)
  {
    LowDigits(x, 2, p);
  }

  lemma SmallPowers()
    ensures Pow(2, 4) == 16 && Pow(2, 6) == 64 && Pow(2, 8) == 256
  {
    PowAdd(2, 4, 4);
  }

  /** The masks of a byte used for clamping. */
  lemma MaskByte(b: nat)
    requires b < 256
    ensures And(b, 255) == b && And(b, 15) == b % 16 && And(b, 252) == b - b % 4
  {
    hide *;
    SmallPowers();
    AndModulo(b, 8);
    AndModulo(b, 4);
    AndModulo(b / 4, 6);
    HighByte(b);
  }

  /** The mask 252 clears two bits. */
  lemma HighByte(b: nat)
    ensures And(b, 252) == 4 * And(b / 4, 63)
  {
    assert And(b / 2, 126) == 2 * And(b / 4, 63) by {
      assert b / 2 / 2 == b / 4;
    }
  }

  lemma {:induction false} AndSplit(x: nat, u: nat, y: nat, v: nat, n: nat)
    requires x < Pow(2, n) && y < Pow(2, n)
    ensures And(x, y) < Pow(2, n) && 0 <= Pow(2, n) * u && 0 <= Pow(2, n) * v
    ensures And(x + Pow(2, n) * u, y + Pow(2, n) * v) == And(x, y) + Pow(2, n) * And(u, v)
    decreases n
  {
    hide And;
    if n == 0 {
      AndUnfold(0, 0);
    } else {
      AndSplit(x / 2, u, y / 2, v, n - 1);
      AndSplitStep(x, u, y, v, Pow(2, n - 1));
    }
  }

  lemma AndSplitStep(x: nat, u: nat, y: nat, v: nat, p: nat)
    requires 0 <= p * u && 0 <= p * v && And(x / 2, y / 2) < p
    requires And(x / 2 + p * u, y / 2 + p * v) == And(x / 2, y / 2) + p * And(u, v)
    ensures 0 <= (2 * p) * u && 0 <= (2 * p) * v && And(x, y) < 2 * p
    ensures And(x + (2 * p) * u, y + (2 * p) * v) == And(x, y) + (2 * p) * And(u, v)
  {
    hide And;
    HalfSum(x, u, p);
    HalfSum(y, v, p);
    AndUnfold(x, y);
    AndUnfold(x + (2 * p) * u, y + (2 * p) * v);
    var w := And(u, v);
    assert (2 * p) * w == 2 * (p * w);
  }

  lemma AndUnfold(x: nat, y: nat)
    ensures And(x, y) == (if x % 2 == 1 && y % 2 == 1 then 1 else 0) + 2 * And(x / 2, y / 2)
  {
    if x == 0 {
      assert And(0, y / 2) == 0;
    }
  }

  lemma HalfSum(x: nat, u: nat, p: nat)
    ensures 0 <= (2 * p) * u && (x + (2 * p) * u) / 2 == x / 2 + p * u && (x + (2 * p) * u) % 2 == x % 2
  {
    assert (2 * p) * u == 2 * (p * u);
  }

  function AndEach(a: seq<int>, m: seq<int>): (r: seq<int>)
    requires |a| == |m| && IsDigits(a, 256) && IsDigits(m, 256)
    ensures |r| == |a|
  {
    seq(|a|, i requires 0 <= i < |a| => And(a[i], m[i]))
  }

  /** Masking a number masks its bytes. */
  lemma {:induction false} AndBytes(a: seq<int>, m: seq<int>)
    requires |a| == |m| && IsDigits(a, 256) && IsDigits(m, 256)
    ensures Eval(a, 256) >= 0 && Eval(m, 256) >= 0
    ensures And(Eval(a, 256), Eval(m, 256)) == Eval(AndEach(a, m), 256)
  {
    ValueBound(a, 256);
    ValueBound(m, 256);
    if a != [] {
      AndBytes(a[1..], m[1..]);
      assert AndEach(a, m)[1..] == AndEach(a[1..], m[1..]);
      SmallPowers();
      ValueBound(a[1..], 256);
      ValueBound(m[1..], 256);
      hide And, Pow;
      AndSplit(a[0], Eval(a[1..], 256), m[0], Eval(m[1..], 256), 8);
    }
  }
}
