/**
 The samplers of ML-DSA-65 (section 7.3 of FIPS 204). The extendable-output functions
 are parameters: a sponge is any function from the absorbed bytes to an endless byte
 stream. The rejection loops read at most `limit` bytes (or triples) and report None
 beyond that, since the loops themselves have no bound.
 */
module MlDsaSampling {
  import opened Wrappers
  import opened NttSpec
  import opened NttLoops
  import opened MlDsaNtt
  import opened MlDsaRounding
  import opened MlDsaCodec
  import opened Digits
  import BitPacking
  import NttTheory
  import M = Modular

  type Stream = nat -> Byte

  /** The two extendable-output functions. */
  datatype Sponges = Sponges(shake128: seq<int> -> Stream, shake256: seq<int> -> Stream)

  function Take(s: Stream, n: nat): (b: seq<int>)
    ensures |b| == n && IsDigits(b, 256)
  {
    seq(n, i requires 0 <= i < n => s(i))
  }

  // ---------------------------------------------------------------- rejection sampling

  type Candidates = nat -> Option<int>

  /** The accepted values among the first m candidates. */
  function Accepted(cand: Candidates, m: nat): seq<int> {
    if m == 0 then []
    else Accepted(cand, m - 1) + match cand(m - 1) case None => [] case Some(v) => [v]
  }

  /** The first 256 accepted candidates, if `limit` candidates are enough. */
  function FirstPoly(cand: Candidates, limit: nat): Option<seq<int>> {
    var a := Accepted(cand, limit);
    if |a| >= N then Some(a[..N]) else None
  }

  lemma AcceptedNext(cand: Candidates, k: nat, v: Option<int>)
    requires cand(k) == v
    ensures Accepted(cand, k + 1) == if v.Some? then Accepted(cand, k) + [v.value] else Accepted(cand, k)
  {
  }

  lemma {:induction false} AcceptedGrows(cand: Candidates, m: nat, n: nat)
    requires m <= n
    ensures |Accepted(cand, m)| <= |Accepted(cand, n)|
    ensures Accepted(cand, n)[..|Accepted(cand, m)|] == Accepted(cand, m)
    decreases n
  {
    if m < n {
      AcceptedGrows(cand, m, n - 1);
    }
  }

  lemma EnoughFound(cand: Candidates, m: nat, limit: nat)
    requires m <= limit && |Accepted(cand, m)| >= N
    ensures FirstPoly(cand, limit) == Some(Accepted(cand, m)[..N])
  {
    AcceptedGrows(cand, m, limit);
    hide Accepted;
    var a, c := Accepted(cand, m), Accepted(cand, limit);
    assert a[..N] == c[..|a|][..N] == c[..N];
  }

  lemma {:induction false} AcceptedAll(cand: Candidates, m: nat, ok: int -> bool)
    requires forall k :: cand(k).Some? ==> ok(cand(k).value)
    ensures forall i :: 0 <= i < |Accepted(cand, m)| ==> ok(Accepted(cand, m)[i])
    decreases m
  {
    if m > 0 {
      AcceptedAll(cand, m - 1, ok);
    }
  }

  /** The uniform sampler: three bytes, 23 bits, accepted below q. */
  function UniformCandidate(s: Stream, k: nat): Option<int> {
    var t := s(3 * k) + 256 * s(3 * k + 1) + 65536 * (s(3 * k + 2) % 128);
    if t < Q then Some(t) else None
  }

  function UniformCandidates(s: Stream): Candidates {
    (k: nat) => UniformCandidate(s, k)
  }

  function RejNttPoly(s: Stream, limit: nat): Option<seq<int>> {
    FirstPoly(UniformCandidates(s), limit)
  }

  lemma RejNttPolyReduced(s: Stream, limit: nat)
    requires RejNttPoly(s, limit).Some?
    ensures |RejNttPoly(s, limit).value| == N && Reduced(RejNttPoly(s, limit).value, Q)
  {
    AcceptedAll(UniformCandidates(s), limit, v => 0 <= v < Q);
  }

  method SampleUniform(s: Stream, limit: nat) returns (r: Option<seq<int>>)
    ensures r == RejNttPoly(s, limit)
  {
    ghost var cand := UniformCandidates(s);
    var poly := [];
    var k := 0;
    while |poly| < N && k < limit
      invariant k <= limit && poly == Accepted(cand, k) && |poly| <= N
    {
      var t := s(3 * k) + 256 * s(3 * k + 1) + 65536 * (s(3 * k + 2) % 128);
      if t < Q {
        poly := poly + [t];
      }
      k := k + 1;
    }
    AcceptedGrows(cand, k, limit);
    r := if |poly| < N then None else Some(poly);
  }

  /** The bounded sampler: nibbles below 9 become coefficients in [-4, 4]. */
  function BoundedCandidate(s: Stream, k: nat): Option<int> {
    var nibble := if k % 2 == 0 then s(k / 2) % 16 else s(k / 2) / 16;
    if nibble < 9 then Some((ETA - nibble) % Q) else None
  }

  function BoundedCandidates(s: Stream): Candidates {
    (k: nat) => BoundedCandidate(s, k)
  }

  function RejBoundedPoly(s: Stream, limit: nat): Option<seq<int>> {
    FirstPoly(BoundedCandidates(s), 2 * limit)
  }

  /** Coefficients within eta of zero. */
  predicate IsShort(p: seq<int>) {
    |p| == N && forall i :: 0 <= i < N ==> 0 <= p[i] < Q && -ETA <= Center(p[i]) <= ETA
  }

  lemma RejBoundedPolyShort(s: Stream, limit: nat)
    requires RejBoundedPoly(s, limit).Some?
    ensures IsShort(RejBoundedPoly(s, limit).value)
  {
    AcceptedAll(BoundedCandidates(s), 2 * limit, v => 0 <= v < Q && -ETA <= Center(v) <= ETA);
  }

  /** At most N of the accepted values. */
  function Capped(a: seq<int>): seq<int> {
    if |a| <= N then a else a[..N]
  }

  /** One nibble of the bounded sampler: appended if acceptable and if there is room. */
  function PutNibble(poly: seq<int>, nibble: int): seq<int> {
    if nibble < 9 && |poly| < N then poly + [(ETA - nibble) % Q] else poly
  }

  lemma CappedNext(s: Stream, k: nat, nibble: int)
    requires nibble == if k % 2 == 0 then s(k / 2) % 16 else s(k / 2) / 16
    ensures PutNibble(Capped(Accepted(BoundedCandidates(s), k)), nibble)
         == Capped(Accepted(BoundedCandidates(s), k + 1))
  {
    AcceptedNext(BoundedCandidates(s), k, if nibble < 9 then Some((ETA - nibble) % Q) else None);
  }

  method SampleBounded(s: Stream, limit: nat) returns (r: Option<seq<int>>)
    ensures r == RejBoundedPoly(s, limit)
  {
    ghost var cand := BoundedCandidates(s);
    hide BoundedCandidates;
    var poly := [];
    var b := 0;
    while |poly| < N && b < limit
      invariant b <= limit && poly == Capped(Accepted(cand, 2 * b))
    {
      poly := TakeByte(s, b, poly);
      b := b + 1;
    }
    if |poly| >= N {
      EnoughFound(cand, 2 * b, 2 * limit);
      assert poly == Accepted(cand, 2 * b)[..N];
    }
    r := if |poly| < N then None else Some(poly);
  }

  /** Both nibbles of one byte. */
  method TakeByte(s: Stream, b: nat, poly0: seq<int>) returns (poly: seq<int>)
    requires poly0 == Capped(Accepted(BoundedCandidates(s), 2 * b))
    ensures poly == Capped(Accepted(BoundedCandidates(s), 2 * (b + 1)))
  {
    var low, high := s(b) % 16, s(b) / 16;
    CappedNext(s, 2 * b, low);
    CappedNext(s, 2 * b + 1, high);
    hide *;
    poly := PutNibble(PutNibble(poly0, low), high);
  }

  /** The masking sampler: 20-bit values v as gamma1 - v, in (-gamma1, gamma1]. */
  function ExpandMask(s: Stream): (p: seq<int>)
    ensures |p| == N && Reduced(p, Q)
  {
    UnpackPoly(Take(s, Z_STRIDE), GAMMA1, 20)
  }

  method SampleMask(s: Stream) returns (p: seq<int>)
    ensures p == ExpandMask(s)
  {
    hide Pow, UnpackPoly;
    p := DecodePoly(Take(s, Z_STRIDE), GAMMA1, 20);
  }

  // ---------------------------------------------------------------- the challenge

  /** The first byte from pos on that is at most i. */
  function NextIndex(s: Stream, pos: nat, i: nat, limit: nat): Option<nat>
    decreases limit - pos
  {
    if pos >= limit then None else if s(pos) <= i then Some(pos) else NextIndex(s, pos + 1, i, limit)
  }

  predicate SignBit(s: Stream, bit: nat) {
    (Eval(Take(s, 8), 256) / Exp2(bit)) % 2 == 1
  }

  datatype Ball = Ball(c: seq<int>, pos: nat)

  const FIRST: nat := 207

  /** The challenge after t placements, and the position in the stream. */
  function BallAfter(s: Stream, t: nat, limit: nat): (r: Option<Ball>)
    requires t <= TAU
    ensures r.Some? ==> |r.value.c| == N
    decreases t, limit
  {
    if t == 0 then Some(Ball(Zeros(N), 8))
    else
      match BallAfter(s, t - 1, limit)
      case None => None
      case Some(b) =>
        var i := FIRST + t - 1;
        match NextIndex(s, b.pos, i, limit)
        case None => None
        case Some(pos) =>
          var j := s(pos);
          Some(Ball(b.c[i := b.c[j]][j := if SignBit(s, t - 1) then Q - 1 else 1], pos + 1))
  }

  function SampleInBall(s: Stream, limit: nat): Option<seq<int>> {
    match BallAfter(s, TAU, limit) case None => None case Some(b) => Some(b.c)
  }

  /** Sum of the absolute centred coefficients of the first m. */
  function Weight(c: seq<int>, m: nat): nat
    requires m <= |c|
    decreases m, |c|
  {
    if m == 0 then 0 else Weight(c, m - 1) + Abs(Center(c[m - 1]))
  }

  lemma {:induction false} WeightUpdate(c: seq<int>, i: nat, x: int, m: nat)
    requires i < |c| && m <= |c|
    ensures Weight(c[i := x], m) == Weight(c, m) + if i < m then Abs(Center(x)) - Abs(Center(c[i])) else 0
  {
    if m > 0 {
      WeightUpdate(c, i, x, m - 1);
    }
  }

  lemma {:induction false} WeightZero(c: seq<int>, m: nat)
    requires m <= |c| && forall i :: 0 <= i < |c| ==> c[i] == 0
    ensures Weight(c, m) == 0
  {
    if m > 0 {
      WeightZero(c, m - 1);
    }
  }

  predicate IsTernary(c: seq<int>) {
    forall i :: 0 <= i < |c| ==> c[i] == 0 || c[i] == 1 || c[i] == Q - 1
  }

  /** Every placement adds exactly one unit of weight. */
  lemma {:induction false} BallWeight(s: Stream, t: nat, limit: nat)
    requires t <= TAU && BallAfter(s, t, limit).Some?
    ensures var c := BallAfter(s, t, limit).value.c;
      IsTernary(c) && Weight(c, N) == t && forall i :: FIRST + t <= i < N ==> c[i] == 0
  {
    if t == 0 {
      WeightZero(Zeros(N), N);
    } else {
      BallWeight(s, t - 1, limit);
      var b := BallAfter(s, t - 1, limit).value;
      var i := FIRST + t - 1;
      var j := s(NextIndex(s, b.pos, i, limit).value);
      NextIndexFits(s, b.pos, i, limit);
      var c := b.c[i := b.c[j]];
      WeightUpdate(b.c, i, b.c[j], N);
      WeightUpdate(c, j, if SignBit(s, t - 1) then Q - 1 else 1, N);
    }
  }

  lemma {:induction false} NextIndexFits(s: Stream, pos: nat, i: nat, limit: nat)
    requires NextIndex(s, pos, i, limit).Some?
    ensures s(NextIndex(s, pos, i, limit).value) <= i
    decreases limit - pos
  {
    if s(pos) > i {
      NextIndexFits(s, pos + 1, i, limit);
    }
  }

  /** The challenge has exactly tau coefficients of absolute value one, all others zero. */
  lemma ChallengeWeight(s: Stream, limit: nat)
    requires SampleInBall(s, limit).Some?
    ensures var c := SampleInBall(s, limit).value;
      |c| == N && Reduced(c, Q) && IsTernary(c) && Weight(c, N) == TAU
  {
    BallWeight(s, TAU, limit);
  }

  method SampleChallenge(s: Stream, limit: nat) returns (r: Option<seq<int>>)
    ensures r == SampleInBall(s, limit)
  {
    var c := Zeros(N);
    var signs := Eval(Take(s, 8), 256);
    var pos := 8;
    var i := FIRST;
    while i < N
      invariant FIRST <= i <= N && 0 <= pos && |c| == N
      invariant BallAfter(s, i - FIRST, limit) == Some(Ball(c, pos))
    {
      ghost var start := pos;
      while pos < limit && s(pos) > i
        invariant start <= pos && NextIndex(s, start, i, limit) == NextIndex(s, pos, i, limit)
        decreases limit - pos
      {
        pos := pos + 1;
      }
      assert BallAfter(s, i + 1 - FIRST, limit).None? == (pos >= limit);
      if pos >= limit {
        BallStaysNone(s, i + 1 - FIRST, TAU, limit);
        return None;
      }
      var j := s(pos);
      c := c[i := c[j]][j := if (signs / Exp2(i - FIRST)) % 2 == 1 then Q - 1 else 1];
      pos := pos + 1;
      i := i + 1;
    }
    r := Some(c);
  }

  lemma {:induction false} BallStaysNone(s: Stream, t: nat, u: nat, limit: nat)
    requires t <= u <= TAU && BallAfter(s, t, limit).None?
    ensures BallAfter(s, u, limit).None?
    decreases u
  {
    if t < u {
      BallStaysNone(s, t, u - 1, limit);
    }
  }

  // ---------------------------------------------------------------- products with the challenge are short

  /** The schoolbook coefficient of the centred representatives, as an integer. */
  function CenteredCoef(c: seq<int>, s: seq<int>, k: nat, m: nat): int
    requires |c| == |s| && m <= |c| && k < |s|
    decreases m, |c|
  {
    if m == 0 then 0
    else
      var y := if k >= m - 1 then Center(s[k - (m - 1)]) else -Center(s[k - (m - 1) + |s|]);
      CenteredCoef(c, s, k, m - 1) + Center(c[m - 1]) * y
  }

  lemma {:induction false} CenteredCoefCongruent(c: seq<int>, s: seq<int>, k: nat, m: nat)
    requires |c| == |s| && m <= |c| && k < |s| && Reduced(c, Q) && Reduced(s, Q)
    ensures NttTheory.ProductCoef(c, s, k, m) % Q == CenteredCoef(c, s, k, m) % Q
  {
    if m > 0 {
      CenteredCoefCongruent(c, s, k, m - 1);
      var x := c[m - 1];
      var y := if k >= m - 1 then s[k - (m - 1)] else s[k - (m - 1) + |s|];
      var sign := if k >= m - 1 then 1 else -1;
      CenterCongruent(x);
      CenterCongruent(y);
      M.Reduce(x, Q);
      M.Reduce(y, Q);
      M.Scale(sign, y, Center(y), Q);
      M.Mul(x, Center(x), sign * y, sign * Center(y), Q);
      M.Add(NttTheory.ProductCoef(c, s, k, m - 1), CenteredCoef(c, s, k, m - 1),
            x * (sign * y), Center(x) * (sign * Center(y)), Q);
    }
  }

  lemma {:induction false} CenteredCoefBound(c: seq<int>, s: seq<int>, k: nat, m: nat)
    requires |c| == N && IsShort(s) && m <= N && k < N
    ensures Abs(CenteredCoef(c, s, k, m)) <= Weight(c, m) * ETA
  {
    if m > 0 {
      CenteredCoefBound(c, s, k, m - 1);
      var x := Center(c[m - 1]);
      var y := if k >= m - 1 then Center(s[k - (m - 1)]) else -Center(s[k - (m - 1) + N]);
      TermBound(x, y);
      assert (Weight(c, m - 1) + Abs(x)) * ETA == Weight(c, m - 1) * ETA + Abs(x) * ETA;
    }
  }

  lemma TermBound(x: int, y: int)
    requires -ETA <= y <= ETA
    ensures Abs(x * y) <= Abs(x) * ETA
  {
    M.ProductBound(Abs(x), Abs(y), Abs(x), ETA);
    assert Abs(x * y) == Abs(x) * Abs(y) by {
      assert (-x) * y == -(x * y) && x * (-y) == -(x * y) && (-x) * (-y) == x * y;
    }
  }

  /**
   Main result: the product of a challenge and a short polynomial has all centred
   coefficients within beta = tau * eta of zero.
   */
  lemma ChallengeProductShort(c: seq<int>, s: seq<int>, k: nat)
    requires |c| == N && Reduced(c, Q) && Weight(c, N) == TAU && IsShort(s) && k < N
    ensures Abs(Center(NttTheory.Product(c, s, Q)[k])) <= BETA
  {
    CenteredCoefCongruent(c, s, k, N);
    CenteredCoefBound(c, s, k, N);
    ParameterValues();
    CenterOf(CenteredCoef(c, s, k, N));
  }
}
