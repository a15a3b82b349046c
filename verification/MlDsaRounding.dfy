/**
 Rounding and hints of ML-DSA-65 (section 7.4 of FIPS 204): splitting a coefficient
 into high and low parts, and recovering high parts from a one-bit hint.
 */
module MlDsaRounding {
  import opened NttLoops
  import opened MlDsaNtt
  import M = Modular

  const D: nat := 13
  const GAMMA2: int := (Q - 1) / 32
  const ALPHA: int := 2 * GAMMA2
  const TAU: int := 49
  const ETA: int := 4
  const BETA: int := TAU * ETA

  /** Centred representative in (-q/2, q/2]. */
  function Center(a: int): int {
    if a > Q / 2 then a - Q else a
  }

  function Abs(x: int): nat {
    if x < 0 then -x else x
  }

  lemma ParameterValues()
    ensures GAMMA2 == 261888 && ALPHA == 523776 && Q - 1 == 16 * ALPHA && BETA == 196
  {
  }

  function Power2Round(r: int): (int, int) {
    var r := r % Q;
    var r1 := (r + 4095) / 8192;
    (r1, r - r1 * 8192)
  }

  function Decompose(r: int): (int, int) {
    var r := r % Q;
    var m := r % ALPHA;
    var r0 := if m > GAMMA2 then m - ALPHA else m;
    if r - r0 == Q - 1 then (0, r0 - 1) else ((r - r0) / ALPHA, r0)
  }

  function HighBits(r: int): int {
    Decompose(r).0
  }

  function LowBits(r: int): int {
    Decompose(r).1
  }

  /** Whether adding z to r changes its high bits. */
  predicate MakeHint(z: int, r: int) {
    HighBits(r) != HighBits(AddMod(r % Q, z % Q))
  }

  function UseHint(hint: bool, r: int): int {
    var (r1, r0) := Decompose(r);
    if hint then (if r0 > 0 then (r1 + 1) % 16 else (r1 - 1) % 16) else r1
  }

  /** Power2Round recomposes, with a 10-bit high part and a low part in (-2^12, 2^12]. */
  lemma Power2RoundExact(r: int)
    ensures var (r1, r0) := Power2Round(r);
      && r1 * 8192 + r0 == r % Q
      && 0 <= r1 < 1024
      && -4096 < r0 <= 4096
  {
  }

  /** r is k*alpha + m with m in (-gamma2, gamma2]; k is 16 only just below q. */
  ghost predicate Nearest(r: int, k: int, m: int) {
    0 <= r < Q && r == k * ALPHA + m && -GAMMA2 < m <= GAMMA2 && 0 <= k <= 16
  }

  lemma NearestOf(r: int) returns (k: int, m: int)
    requires 0 <= r < Q
    ensures Nearest(r, k, m)
    ensures Decompose(r) == if k == 16 then (0, m - 1) else (k, m)
  {
    var c := r % ALPHA;
    m := if c > GAMMA2 then c - ALPHA else c;
    k := r / ALPHA + if c > GAMMA2 then 1 else 0;
    ParameterValues();
    assert r - m == k * ALPHA;
    M.QuotientExact(k, ALPHA);
  }

  lemma DecomposeReduced(r: int)
    ensures Decompose(r) == Decompose(r % Q)
  {
    M.Reduce(r, Q);
  }

  /**
   Decompose recomposes modulo q, with high part in [0, 16) and low part in
   [-gamma2, gamma2]. Only the wrap at the top of the range, where r is within gamma2
   of q and the high part is reset to 0, breaks exact recomposition over the integers.
   */
  lemma DecomposeExact(r: int)
    ensures var (r1, r0) := Decompose(r);
      && 0 <= r1 < 16 && -GAMMA2 <= r0 <= GAMMA2
      && r1 * ALPHA + r0 == (if r % Q >= Q - GAMMA2 then r % Q - Q else r % Q)
      && (r0 == -GAMMA2 <==> r % Q == Q - GAMMA2)
  {
    DecomposeReduced(r);
    var k, m := NearestOf(r % Q);
  }

  /** The wrapped sum of a reduced r and a centred z. */
  lemma WrappedSum(r: int, z: int)
    ensures var c := Center(z % Q);
      AddMod(r % Q, z % Q) == (if r % Q + c >= Q then r % Q + c - Q else if r % Q + c < 0 then r % Q + c + Q else r % Q + c)
  {
  }

  /** High parts of two values at most gamma2 apart differ by at most one step around the circle of 16. */
  lemma StepAround(r: int, s: int, c: int, k: int, m: int, l: int, n: int)
    requires Nearest(r, k, m) && Nearest(s, l, n) && -GAMMA2 <= c <= GAMMA2
    requires s == if r + c >= Q then r + c - Q else if r + c < 0 then r + c + Q else r + c
    ensures var h, g, r0 := if k == 16 then 0 else k, if l == 16 then 0 else l, if k == 16 then m - 1 else m;
      g == h || (r0 > 0 && g == (h + 1) % 16) || (r0 <= 0 && g == (h - 1) % 16)
  {
    ParameterValues();
    assert k in {0, 1, 2, 3, 4, 5, 6, 7, 8, 9, 10, 11, 12, 13, 14, 15, 16};
  }

  /**
   Main result: the hint recovers the high part of r + z from r alone, for every r and
   every z of centred absolute value at most gamma2.
   */
  lemma HintRecovers(z: int, r: int)
    requires Abs(Center(z % Q)) <= GAMMA2
    ensures UseHint(MakeHint(z, r), r) == HighBits(r + z)
  {
    var s := AddMod(r % Q, z % Q);
    DecomposeReduced(r);
    DecomposeReduced(r + z);
    SumReduced(r, z);
    var k, m := NearestOf(r % Q);
    var l, n := NearestOf(s);
    WrappedSum(r, z);
    StepAround(r % Q, s, Center(z % Q), k, m, l, n);
  }

  lemma SumReduced(r: int, z: int)
    ensures (r + z) % Q == AddMod(r % Q, z % Q)
  {
  }

  /**
   Main result: when the low part of r is well inside its range, adding anything of
   absolute value at most beta leaves the high part unchanged.
   */
  lemma SmallChangeKeepsHighBits(r: int, s: int)
    requires Abs(LowBits(r)) < GAMMA2 - BETA && Abs(Center(s % Q)) <= BETA
    ensures HighBits(r + s) == HighBits(r)
  {
    ParameterValues();
    DecomposeReduced(r);
    DecomposeReduced(r + s);
    SumReduced(r, s);
    var t := AddMod(r % Q, s % Q);
    var k, m := NearestOf(r % Q);
    var l, n := NearestOf(t);
    WrappedSum(r, s);
    SameCell(r % Q, t, Center(s % Q), k, m, l, n);
  }

  lemma SameCell(r: int, s: int, c: int, k: int, m: int, l: int, n: int)
    requires Nearest(r, k, m) && Nearest(s, l, n) && -BETA <= c <= BETA
    requires Abs(if k == 16 then m - 1 else m) < GAMMA2 - BETA
    requires s == if r + c >= Q then r + c - Q else if r + c < 0 then r + c + Q else r + c
    ensures k == l || (k == 0 && l == 16) || (k == 16 && l == 0)
  {
    ParameterValues();
    assert k in {0, 1, 2, 3, 4, 5, 6, 7, 8, 9, 10, 11, 12, 13, 14, 15, 16};
  }
}
