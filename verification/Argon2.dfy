/**
 The memory fill of Argon2id (section 3.4 of RFC 9106), for any compression function: every
 block it reads is in range, already filled, and out of reach of the lanes that may be
 filled at the same time, so the lanes of a slice may be filled in any order.
 */
module Argon2 {
  import opened NttSpec
  import Masks
  import M = Modular

  const BLOCK_WORDS: nat := 128
  const SYNC_POINTS: nat := 4
  const ADDRESSES_PER_BLOCK: nat := 128
  const ARGON2ID: nat := 2
  const TWO_32: nat := 0x1_0000_0000
  const TWO_64: nat := 0x1_0000_0000_0000_0000

  type Word = x: nat | x < TWO_64

  type Block = b: seq<Word> | |b| == BLOCK_WORDS witness seq(BLOCK_WORDS, i => 0)

  function ZeroBlock(): Block {
    seq(BLOCK_WORDS, i => 0)
  }

  /** The compression function is a parameter. */
  type Compress = (Block, Block) -> Block

  lemma WordPower()
    ensures Pow(2, 64) == TWO_64
  {
    assert Pow(2, 4) == 16;
    PowAdd(2, 4, 4);
    PowAdd(2, 8, 8);
    PowAdd(2, 16, 16);
    PowAdd(2, 32, 32);
  }

  function XorWords(x: Word, y: Word): Word {
    WordPower();
    Masks.XorBound(x, y, 64);
    Masks.Xor(x, y)
  }

  function XorBlocks(a: Block, b: Block): Block {
    seq(BLOCK_WORDS, i requires 0 <= i < BLOCK_WORDS => XorWords(a[i], b[i]))
  }

  // ---------------------------------------------------------------- dimensions

  datatype Shape = Shape(lanes: nat, laneLength: nat, segmentLength: nat, passes: Word)

  /** Four segments of at least two blocks a lane. */
  ghost predicate IsShape(s: Shape) {
    && s.lanes >= 1 && s.segmentLength >= 2 && s.laneLength == SYNC_POINTS * s.segmentLength && s.laneLength < TWO_32
    && s.lanes < TWO_32
  }

  lemma MultipleQuotient(a: int, b: int)
    requires b > 0
    ensures (a * b) / b == a
  {
    M.QuotientExact(a, b);
  }

  /** The memory cost rounded to whole segments: any cost and any number of lanes give a valid shape. */
  method Dimensions(memoryKib: nat, passes: Word, lanes: nat) returns (s: Shape, blocks: nat)
    requires memoryKib < TWO_32 && 1 <= lanes < TWO_32
    ensures IsShape(s) && s.lanes == lanes && s.passes == passes && blocks == lanes * s.laneLength
    ensures memoryKib >= 8 * lanes ==> blocks <= memoryKib < blocks + 4 * lanes
    ensures memoryKib < 8 * lanes ==> blocks == 8 * lanes
  {
    var wanted := if memoryKib >= 8 * lanes then memoryKib else 8 * lanes;
    var unit := SYNC_POINTS * lanes;
    var k := wanted / unit;
    RoundedCost(wanted, lanes, k);
    blocks := k * unit;
    assert k * unit == (SYNC_POINTS * k) * lanes;
    MultipleQuotient(SYNC_POINTS * k, lanes);
    var laneLength := blocks / lanes;
    s := Shape(lanes, laneLength, laneLength / SYNC_POINTS, passes);
  }

  lemma RoundedCost(wanted: nat, lanes: nat, k: int)
    requires lanes >= 1 && wanted >= 8 * lanes && k == wanted / (4 * lanes) && (wanted < TWO_32 || wanted == 8 * lanes)
    ensures k >= 2 && k * (4 * lanes) <= wanted < k * (4 * lanes) + 4 * lanes && 4 * k < TWO_32
    ensures wanted == 8 * lanes ==> k == 2
  {
    var u := 4 * lanes;
    assert wanted == u * k + wanted % u;
    assert k * u == u * k;
    if k <= 1 {
      M.ProductBound(u, if k >= 0 then k else 0, u, 1);
    }
    if wanted == 8 * lanes {
      MultipleQuotient(2, u);
    } else {
      M.ProductBound(4, k, u, k);
    }
  }

  // ---------------------------------------------------------------- places

  /** One segment to fill: pass, lane and slice. */
  datatype Job = Job(pass: nat, lane: nat, slice: nat)

  ghost predicate IsJob(s: Shape, j: Job) {
    IsShape(s) && j.lane < s.lanes && j.slice < SYNC_POINTS
  }

  function Place(s: Shape, lane: nat, column: nat): nat {
    M.ProductBound(0, 0, lane, s.laneLength);
    lane * s.laneLength + column
  }

  lemma PlaceInRange(s: Shape, lane: nat, column: nat)
    requires lane < s.lanes && column < s.laneLength
    ensures Place(s, lane, column) < s.lanes * s.laneLength
  {
    M.ProductBound(lane + 1, s.laneLength, s.lanes, s.laneLength);
    assert (lane + 1) * s.laneLength == lane * s.laneLength + s.laneLength;
  }

  lemma PlaceInjective(s: Shape, a: nat, c: nat, b: nat, d: nat)
    requires c < s.laneLength && d < s.laneLength
    ensures Place(s, a, c) == Place(s, b, d) <==> a == b && c == d
  {
    var n := s.laneLength;
    if Place(s, a, c) == Place(s, b, d) {
      assert n * (a - b) == d - c by {
        assert n * (a - b) == a * n - b * n;
      }
      M.Far(n, a - b);
    }
  }

  /** Every index of the memory is the place of one block. */
  lemma PlaceOf(s: Shape, i: nat) returns (lane: nat, column: nat)
    requires s.laneLength > 0 && i < s.lanes * s.laneLength
    ensures lane < s.lanes && column < s.laneLength && i == Place(s, lane, column)
  {
    lane, column := i / s.laneLength, i % s.laneLength;
    var n := s.laneLength;
    assert i == n * lane + column && n * lane == lane * n;
    if lane >= s.lanes {
      M.ProductBound(s.lanes, n, lane, n);
    }
  }

  /** Columns of the slice. */
  predicate InSlice(s: Shape, slice: nat, column: nat) {
    slice * s.segmentLength <= column < (slice + 1) * s.segmentLength
  }

  // ---------------------------------------------------------------- references

  function ColumnOf(s: Shape, j: Job, index: nat): nat {
    M.ProductBound(0, 0, j.slice, s.segmentLength);
    j.slice * s.segmentLength + index
  }

  function PreviousColumn(s: Shape, column: nat): int {
    if column == 0 then s.laneLength - 1 else column - 1
  }

  /** The first index that is filled: two blocks of each lane are given. */
  function FirstIndex(j: Job): nat {
    if j.pass == 0 && j.slice == 0 then 2 else 0
  }

  /** The lane a random word refers to. */
  function ReferenceLane(s: Shape, j: Job, random: Word): nat
    requires s.lanes >= 1
  {
    if j.pass == 0 && j.slice == 0 then j.lane else (random / TWO_32) % s.lanes
  }

  /** The number of blocks that may be referred to. */
  function ReferenceArea(s: Shape, j: Job, index: nat, same: bool): int {
    var first := if index == 0 then 1 else 0;
    if j.pass == 0 then
      if same then ColumnOf(s, j, index) - 1 else j.slice * s.segmentLength - first
    else if same then s.laneLength - s.segmentLength + index - 1
    else s.laneLength - s.segmentLength - first
  }

  /** The position in the area, counted from its start: recent blocks are more likely. */
  function Position(area: int, random: Word): int {
    var j1 := random % TWO_32;
    var x := j1 * j1 / TWO_32;
    area - 1 - area * x / TWO_32
  }

  function AreaStart(s: Shape, j: Job): int
    requires s.laneLength > 0
  {
    if j.pass == 0 then 0 else ((j.slice + 1) * s.segmentLength) % s.laneLength
  }

  function ReferenceColumn(s: Shape, j: Job, index: nat, random: Word): int
    requires s.lanes >= 1 && s.laneLength > 0
  {
    var same := ReferenceLane(s, j, random) == j.lane;
    (AreaStart(s, j) + Position(ReferenceArea(s, j, index, same), random)) % s.laneLength
  }

  /** No product overflows 64 bits, and the position is inside the area. */
  lemma PositionInArea(area: int, random: Word)
    requires 0 < area < TWO_32
    ensures var x := random % TWO_32 * (random % TWO_32) / TWO_32;
      random % TWO_32 * (random % TWO_32) < TWO_64 && 0 <= x < TWO_32 && 0 <= area * x < TWO_64
    ensures 0 <= Position(area, random) < area
  {
    var j1 := random % TWO_32;
    M.ProductBound(j1, j1, TWO_32 - 1, TWO_32 - 1);
    var x := j1 * j1 / TWO_32;
    M.ProductBound(area, x, area, TWO_32 - 1);
    M.ProductBound(area, x, TWO_32 - 1, TWO_32 - 1);
    BelowFactor(area, x);
  }

  lemma BelowFactor(area: int, x: int)
    requires 0 < area && 0 <= x < TWO_32 && 0 <= area * x <= area * (TWO_32 - 1)
    ensures 0 <= area * x / TWO_32 < area
  {
    assert area * (TWO_32 - 1) == area * TWO_32 - area;
  }

  lemma SliceStarts(s: Shape, slice: nat)
    requires IsShape(s) && slice < SYNC_POINTS
    ensures slice == 0 ==> slice * s.segmentLength == 0 && (slice + 1) * s.segmentLength == s.segmentLength
    ensures slice == 1 ==> slice * s.segmentLength == s.segmentLength && (slice + 1) * s.segmentLength == 2 * s.segmentLength
    ensures slice == 2 ==> slice * s.segmentLength == 2 * s.segmentLength && (slice + 1) * s.segmentLength == 3 * s.segmentLength
    ensures slice == 3 ==> slice * s.segmentLength == 3 * s.segmentLength && (slice + 1) * s.segmentLength == 4 * s.segmentLength
  {
  }

  lemma StartIs(s: Shape, j: Job)
    requires IsJob(s, j)
    ensures AreaStart(s, j) == if j.pass == 0 || j.slice == 3 then 0 else (j.slice + 1) * s.segmentLength
  {
    SliceStarts(s, j.slice);
    if j.pass > 0 {
      if j.slice == 3 {
        M.Multiple(s.laneLength, 0, 1, s.laneLength);
        M.Small(0, s.laneLength);
      } else {
        M.Small((j.slice + 1) * s.segmentLength, s.laneLength);
      }
    }
  }

  lemma Wrapped(v: int, n: int)
    requires 0 <= v < 2 * n
    ensures v % n == if v < n then v else v - n
  {
    if v < n {
      M.Small(v, n);
    } else {
      M.Multiple(v, v - n, 1, n);
      M.Small(v - n, n);
    }
  }

  lemma AreaPositive(s: Shape, j: Job, index: nat, same: bool)
    requires IsJob(s, j) && FirstIndex(j) <= index < s.segmentLength
    requires j.pass == 0 && j.slice == 0 ==> same
    ensures 0 < ReferenceArea(s, j, index, same) < s.laneLength
  {
    SliceStarts(s, j.slice);
  }

  /** What a reference may be. */
  ghost predicate SafeReference(s: Shape, j: Job, index: nat, lane: nat, column: int) {
    var own := ColumnOf(s, j, index);
    && lane < s.lanes && 0 <= column < s.laneLength
    && (lane == j.lane ==> column != own && column != PreviousColumn(s, own))
    && (lane != j.lane ==> !InSlice(s, j.slice, column))
    && (j.pass == 0 ==> column < if lane == j.lane then own else j.slice * s.segmentLength)
  }

  /**
   Main result: a reference is in range, is neither the block being written nor the one
   before it, lies outside the current slice of any other lane, and in the first pass is
   filled already.
   */
  lemma ReferenceSafe(s: Shape, j: Job, index: nat, random: Word)
    requires IsJob(s, j) && FirstIndex(j) <= index < s.segmentLength
    ensures SafeReference(s, j, index, ReferenceLane(s, j, random), ReferenceColumn(s, j, index, random))
  {
    var lane := ReferenceLane(s, j, random);
    if j.pass > 0 || j.slice > 0 {
      M.Reduce(random / TWO_32, s.lanes);
    }
    var area := ReferenceArea(s, j, index, lane == j.lane);
    AreaPositive(s, j, index, lane == j.lane);
    PositionInArea(area, random);
    StartIs(s, j);
    SliceStarts(s, j.slice);
    var z := Position(area, random);
    hide Position;
    Wrapped(AreaStart(s, j) + z, s.laneLength);
  }

  // ---------------------------------------------------------------- random words

  /** What the addresses of the first two slices of the first pass are drawn from. */
  function AddressInput(s: Shape, j: Job, blocks: Word, counter: Word): Block
    requires IsJob(s, j) && j.pass < TWO_64
  {
    ZeroBlock()[0 := j.pass][1 := j.lane][2 := j.slice][3 := blocks][4 := s.passes][5 := ARGON2ID][6 := counter]
  }

  function AddressBlock(g: Compress, s: Shape, j: Job, blocks: Word, counter: Word): Block
    requires IsJob(s, j) && j.pass < TWO_64
  {
    g(ZeroBlock(), g(ZeroBlock(), AddressInput(s, j, blocks, counter)))
  }

  predicate Independent(j: Job) {
    j.pass == 0 && j.slice < 2
  }

  /** The word that picks the reference of one block. */
  function RandomWord(g: Compress, s: Shape, j: Job, blocks: Word, index: nat, prev: Block): Word
    requires IsJob(s, j) && j.pass < TWO_64 && index < s.segmentLength
  {
    if Independent(j) then AddressBlock(g, s, j, blocks, index / ADDRESSES_PER_BLOCK + 1)[index % ADDRESSES_PER_BLOCK]
    else prev[0]
  }

  // ---------------------------------------------------------------- filling, as a function

  ghost predicate IsMemory(s: Shape, m: seq<Block>) {
    |m| == s.lanes * s.laneLength < TWO_64
  }

  function BlockAt(s: Shape, m: seq<Block>, lane: nat, column: nat): Block
    requires IsMemory(s, m) && lane < s.lanes && column < s.laneLength
  {
    PlaceInRange(s, lane, column);
    m[Place(s, lane, column)]
  }

  lemma ColumnInRange(s: Shape, j: Job, index: nat)
    requires IsJob(s, j) && FirstIndex(j) <= index < s.segmentLength
    ensures ColumnOf(s, j, index) < s.laneLength && InSlice(s, j.slice, ColumnOf(s, j, index))
    ensures 0 <= PreviousColumn(s, ColumnOf(s, j, index)) < s.laneLength
    ensures j.pass == 0 ==> ColumnOf(s, j, index) > 0
  {
    SliceStarts(s, j.slice);
  }

  function Previous(s: Shape, m: seq<Block>, j: Job, index: nat): Block
    requires IsMemory(s, m) && IsJob(s, j) && FirstIndex(j) <= index < s.segmentLength
  {
    ColumnInRange(s, j, index);
    BlockAt(s, m, j.lane, PreviousColumn(s, ColumnOf(s, j, index)))
  }

  function Referred(g: Compress, s: Shape, m: seq<Block>, j: Job, index: nat): Block
    requires IsMemory(s, m) && IsJob(s, j) && j.pass < TWO_64 && FirstIndex(j) <= index < s.segmentLength
  {
    var random := RandomWord(g, s, j, |m|, index, Previous(s, m, j, index));
    ReferenceSafe(s, j, index, random);
    BlockAt(s, m, ReferenceLane(s, j, random), ReferenceColumn(s, j, index, random))
  }

  /** The new block: written in the first pass, combined with the old one later. */
  function NewBlock(g: Compress, s: Shape, m: seq<Block>, j: Job, index: nat): Block
    requires IsMemory(s, m) && IsJob(s, j) && j.pass < TWO_64 && FirstIndex(j) <= index < s.segmentLength
  {
    ColumnInRange(s, j, index);
    var mixed := g(Previous(s, m, j, index), Referred(g, s, m, j, index));
    if j.pass == 0 then mixed else XorBlocks(BlockAt(s, m, j.lane, ColumnOf(s, j, index)), mixed)
  }

  function FillOne(g: Compress, s: Shape, m: seq<Block>, j: Job, index: nat): (r: seq<Block>)
    requires IsMemory(s, m) && IsJob(s, j) && j.pass < TWO_64 && FirstIndex(j) <= index < s.segmentLength
    ensures IsMemory(s, r)
  {
    ColumnInRange(s, j, index);
    PlaceInRange(s, j.lane, ColumnOf(s, j, index));
    m[Place(s, j.lane, ColumnOf(s, j, index)) := NewBlock(g, s, m, j, index)]
  }

  /** The memory once the blocks before `index` are filled. */
  function FillTo(g: Compress, s: Shape, m: seq<Block>, j: Job, index: nat): (r: seq<Block>)
    requires IsMemory(s, m) && IsJob(s, j) && j.pass < TWO_64 && index <= s.segmentLength
    ensures IsMemory(s, r)
    decreases index
  {
    if index <= FirstIndex(j) then m else FillOne(g, s, FillTo(g, s, m, j, index - 1), j, index - 1)
  }

  function Fill(g: Compress, s: Shape, m: seq<Block>, j: Job): (r: seq<Block>)
    requires IsMemory(s, m) && IsJob(s, j) && j.pass < TWO_64
    ensures IsMemory(s, r)
  {
    FillTo(g, s, m, j, s.segmentLength)
  }

  // ---------------------------------------------------------------- what a segment depends on

  /** The block of one cell after one step. */
  lemma FilledAt(g: Compress, s: Shape, m: seq<Block>, j: Job, index: nat, lane: nat, column: nat)
    requires IsMemory(s, m) && IsJob(s, j) && j.pass < TWO_64 && FirstIndex(j) <= index < s.segmentLength
    requires lane < s.lanes && column < s.laneLength
    ensures BlockAt(s, FillOne(g, s, m, j, index), lane, column)
         == if lane == j.lane && column == ColumnOf(s, j, index) then NewBlock(g, s, m, j, index) else BlockAt(s, m, lane, column)
  {
    hide NewBlock, IsJob, Place;
    JobLane(s, j);
    ColumnInRange(s, j, index);
    PlaceInRange(s, lane, column);
    PlaceInRange(s, j.lane, ColumnOf(s, j, index));
    PlaceInjective(s, lane, column, j.lane, ColumnOf(s, j, index));
  }

  lemma JobLane(s: Shape, j: Job)
    requires IsJob(s, j)
    ensures j.lane < s.lanes
  {
  }

  /** Everything outside the segment stays. */
  lemma {:induction false} FillFrame(g: Compress, s: Shape, m: seq<Block>, j: Job, index: nat, lane: nat, column: nat)
    requires IsMemory(s, m) && IsJob(s, j) && j.pass < TWO_64 && index <= s.segmentLength
    requires lane < s.lanes && column < s.laneLength && (lane != j.lane || !InSlice(s, j.slice, column))
    ensures BlockAt(s, FillTo(g, s, m, j, index), lane, column) == BlockAt(s, m, lane, column)
    decreases index
  {
    hide FillOne, BlockAt, IsJob, IsMemory;
    if index > FirstIndex(j) {
      FillFrame(g, s, m, j, index - 1, lane, column);
      FilledAt(g, s, FillTo(g, s, m, j, index - 1), j, index - 1, lane, column);
      ColumnInRange(s, j, index - 1);
    }
  }

  /** Two memories agree on the blocks that a segment may read. */
  ghost predicate Agree(s: Shape, m: seq<Block>, w: seq<Block>, j: Job)
    requires IsMemory(s, m) && IsMemory(s, w)
  {
    forall lane: nat, column: nat :: Visible(s, j, lane, column) ==> BlockAt(s, m, lane, column) == BlockAt(s, w, lane, column)
  }

  predicate Visible(s: Shape, j: Job, lane: nat, column: nat) {
    lane < s.lanes && column < s.laneLength && (lane == j.lane || !InSlice(s, j.slice, column))
  }

  lemma SameNewBlock(g: Compress, s: Shape, m: seq<Block>, w: seq<Block>, j: Job, index: nat)
    requires IsMemory(s, m) && IsMemory(s, w) && IsJob(s, j) && j.pass < TWO_64 && FirstIndex(j) <= index < s.segmentLength
    requires Agree(s, m, w, j)
    ensures NewBlock(g, s, m, j, index) == NewBlock(g, s, w, j, index)
  {
    hide BlockAt, ReferenceColumn, ReferenceLane, RandomWord, XorBlocks, IsShape;
    ColumnInRange(s, j, index);
    var prev := PreviousColumn(s, ColumnOf(s, j, index));
    assert Visible(s, j, j.lane, prev) && Visible(s, j, j.lane, ColumnOf(s, j, index));
    var random := RandomWord(g, s, j, |m|, index, Previous(s, m, j, index));
    ReferenceSafe(s, j, index, random);
    assert Visible(s, j, ReferenceLane(s, j, random), ReferenceColumn(s, j, index, random));
  }

  lemma StepAgrees(g: Compress, s: Shape, m: seq<Block>, w: seq<Block>, j: Job, index: nat)
    requires IsMemory(s, m) && IsMemory(s, w) && IsJob(s, j) && j.pass < TWO_64 && FirstIndex(j) <= index < s.segmentLength
    requires Agree(s, m, w, j)
    ensures Agree(s, FillOne(g, s, m, j, index), FillOne(g, s, w, j, index), j)
  {
    hide BlockAt, FillOne, NewBlock, IsJob, IsMemory;
    SameNewBlock(g, s, m, w, j, index);
    var m', w' := FillOne(g, s, m, j, index), FillOne(g, s, w, j, index);
    forall lane: nat, column: nat | Visible(s, j, lane, column)
      ensures BlockAt(s, m', lane, column) == BlockAt(s, w', lane, column)
    {
      FilledAt(g, s, m, j, index, lane, column);
      FilledAt(g, s, w, j, index, lane, column);
    }
  }

  /** A segment depends only on its own lane and on the other slices of the other lanes. */
  lemma {:induction false} FillAgrees(g: Compress, s: Shape, m: seq<Block>, w: seq<Block>, j: Job, index: nat)
    requires IsMemory(s, m) && IsMemory(s, w) && IsJob(s, j) && j.pass < TWO_64 && index <= s.segmentLength
    requires Agree(s, m, w, j)
    ensures Agree(s, FillTo(g, s, m, j, index), FillTo(g, s, w, j, index), j)
    decreases index
  {
    hide Agree, FillOne, IsJob, IsMemory;
    if index > FirstIndex(j) {
      FillAgrees(g, s, m, w, j, index - 1);
      StepAgrees(g, s, FillTo(g, s, m, j, index - 1), FillTo(g, s, w, j, index - 1), j, index - 1);
    }
  }

  // ---------------------------------------------------------------- the lanes of a slice

  ghost predicate AreLanes(s: Shape, order: seq<nat>) {
    && (forall i :: 0 <= i < |order| ==> order[i] < s.lanes)
    && forall i, k :: 0 <= i < k < |order| ==> order[i] != order[k]
  }

  /** The listed lanes one after the other. */
  function FillLanes(g: Compress, s: Shape, m: seq<Block>, pass: nat, slice: nat, order: seq<nat>): (r: seq<Block>)
    requires IsMemory(s, m) && IsShape(s) && pass < TWO_64 && slice < SYNC_POINTS && forall i :: 0 <= i < |order| ==> order[i] < s.lanes
    ensures IsMemory(s, r)
  {
    if order == [] then m
    else
      var n := |order| - 1;
      Fill(g, s, FillLanes(g, s, m, pass, slice, order[..n]), Job(pass, order[n], slice))
  }

  /** What filling the lanes at the same time would leave in one cell. */
  function Parallel(g: Compress, s: Shape, m: seq<Block>, pass: nat, slice: nat, order: seq<nat>, lane: nat, column: nat): Block
    requires IsMemory(s, m) && IsShape(s) && pass < TWO_64 && slice < SYNC_POINTS && lane < s.lanes && column < s.laneLength
  {
    if lane in order && InSlice(s, slice, column) then BlockAt(s, Fill(g, s, m, Job(pass, lane, slice)), lane, column)
    else BlockAt(s, m, lane, column)
  }

  /** The memory has in every cell what filling at the same time would leave there. */
  ghost predicate IsParallel(g: Compress, s: Shape, m: seq<Block>, pass: nat, slice: nat, order: seq<nat>, w: seq<Block>)
    requires IsMemory(s, m) && IsMemory(s, w) && IsShape(s) && pass < TWO_64 && slice < SYNC_POINTS
  {
    forall lane: nat, column: nat :: lane < s.lanes && column < s.laneLength ==>
      BlockAt(s, w, lane, column) == Parallel(g, s, m, pass, slice, order, lane, column)
  }

  lemma ParallelAt(g: Compress, s: Shape, m: seq<Block>, pass: nat, slice: nat, order: seq<nat>, w: seq<Block>, lane: nat, column: nat)
    requires IsMemory(s, m) && IsMemory(s, w) && IsShape(s) && pass < TWO_64 && slice < SYNC_POINTS
    requires IsParallel(g, s, m, pass, slice, order, w) && lane < s.lanes && column < s.laneLength
    ensures BlockAt(s, w, lane, column) == Parallel(g, s, m, pass, slice, order, lane, column)
  {
  }

  /** For a lane that is not filled yet, nothing visible has changed. */
  lemma StillAgrees(g: Compress, s: Shape, m: seq<Block>, pass: nat, slice: nat, order: seq<nat>, w: seq<Block>, last: nat)
    requires IsMemory(s, m) && IsMemory(s, w) && IsShape(s) && pass < TWO_64 && slice < SYNC_POINTS
    requires IsParallel(g, s, m, pass, slice, order, w) && last !in order
    ensures Agree(s, m, w, Job(pass, last, slice))
  {
    hide BlockAt, Fill, IsShape, IsMemory, IsParallel, InSlice;
    forall l: nat, c: nat | Visible(s, Job(pass, last, slice), l, c)
      ensures BlockAt(s, m, l, c) == BlockAt(s, w, l, c)
    {
      ParallelAt(g, s, m, pass, slice, order, w, l, c);
    }
  }

  lemma OneMoreLane(g: Compress, s: Shape, m: seq<Block>, pass: nat, slice: nat, order: seq<nat>, w: seq<Block>, last: nat)
    requires IsMemory(s, m) && IsMemory(s, w) && IsShape(s) && pass < TWO_64 && slice < SYNC_POINTS && last < s.lanes
    requires IsParallel(g, s, m, pass, slice, order, w) && last !in order
    ensures IsParallel(g, s, m, pass, slice, order + [last], Fill(g, s, w, Job(pass, last, slice)))
  {
    var j := Job(pass, last, slice);
    var v := Fill(g, s, w, j);
    StillAgrees(g, s, m, pass, slice, order, w, last);
    FillAgrees(g, s, m, w, j, s.segmentLength);
    hide BlockAt, FillTo, IsShape, IsMemory, InSlice;
    forall lane: nat, column: nat | lane < s.lanes && column < s.laneLength
      ensures BlockAt(s, v, lane, column) == Parallel(g, s, m, pass, slice, order + [last], lane, column)
    {
      if lane == last && InSlice(s, slice, column) {
        assert Visible(s, j, lane, column);
      } else {
        FillFrame(g, s, w, j, s.segmentLength, lane, column);
        ParallelAt(g, s, m, pass, slice, order, w, lane, column);
      }
    }
  }

  lemma LanesBefore(s: Shape, order: seq<nat>)
    requires AreLanes(s, order) && order != []
    ensures AreLanes(s, order[..|order| - 1]) && order[|order| - 1] < s.lanes && order[|order| - 1] !in order[..|order| - 1]
    ensures order == order[..|order| - 1] + [order[|order| - 1]]
  {
  }

  lemma AllLanes(s: Shape, order: seq<nat>)
    requires AreLanes(s, order)
    ensures forall i :: 0 <= i < |order| ==> order[i] < s.lanes
  {
  }

  /** Filled one after the other, every lane gets what it would get at the same time. */
  lemma {:induction false} LanesAreParallel(g: Compress, s: Shape, m: seq<Block>, pass: nat, slice: nat, order: seq<nat>)
    requires IsMemory(s, m) && IsShape(s) && pass < TWO_64 && slice < SYNC_POINTS && AreLanes(s, order)
    ensures forall i :: 0 <= i < |order| ==> order[i] < s.lanes
    ensures IsParallel(g, s, m, pass, slice, order, FillLanes(g, s, m, pass, slice, order))
    decreases |order|
  {
    AllLanes(s, order);
    hide BlockAt, Fill, IsShape, IsMemory, AreLanes;
    if order != [] {
      hide IsParallel;
      LanesBefore(s, order);
      var n := |order| - 1;
      LanesAreParallel(g, s, m, pass, slice, order[..n]);
      OneMoreLane(g, s, m, pass, slice, order[..n], FillLanes(g, s, m, pass, slice, order[..n]), order[n]);
    }
  }

  /** Memories with the same blocks everywhere are the same. */
  lemma SameMemory(s: Shape, m: seq<Block>, w: seq<Block>)
    requires IsMemory(s, m) && IsMemory(s, w) && s.laneLength > 0
    requires forall lane: nat, column: nat :: lane < s.lanes && column < s.laneLength ==> BlockAt(s, m, lane, column) == BlockAt(s, w, lane, column)
    ensures m == w
  {
    forall i | 0 <= i < |m|
      ensures m[i] == w[i]
    {
      var lane, column := PlaceOf(s, i);
      assert BlockAt(s, m, lane, column) == BlockAt(s, w, lane, column);
    }
  }

  /** Main result: the lanes of a slice may be filled in any order. */
  lemma AnyLaneOrder(g: Compress, s: Shape, m: seq<Block>, pass: nat, slice: nat, a: seq<nat>, b: seq<nat>)
    requires IsMemory(s, m) && IsShape(s) && pass < TWO_64 && slice < SYNC_POINTS && AreLanes(s, a) && AreLanes(s, b)
    requires forall x :: x in a <==> x in b
    ensures FillLanes(g, s, m, pass, slice, a) == FillLanes(g, s, m, pass, slice, b)
  {
    LanesAreParallel(g, s, m, pass, slice, a);
    LanesAreParallel(g, s, m, pass, slice, b);
    hide BlockAt, FillLanes, Fill, IsMemory, AreLanes, IsParallel;
    var u, v := FillLanes(g, s, m, pass, slice, a), FillLanes(g, s, m, pass, slice, b);
    forall lane: nat, column: nat | lane < s.lanes && column < s.laneLength
      ensures BlockAt(s, u, lane, column) == BlockAt(s, v, lane, column)
    {
      ParallelAt(g, s, m, pass, slice, a, u, lane, column);
      ParallelAt(g, s, m, pass, slice, b, v, lane, column);
    }
    SameMemory(s, u, v);
  }

  // ---------------------------------------------------------------- all passes

  /** Every lane once, in some order. */
  ghost predicate IsOrder(s: Shape, order: seq<nat>) {
    AreLanes(s, order) && forall lane: nat :: lane < s.lanes ==> lane in order
  }

  ghost predicate IsSchedule(s: Shape, schedule: seq<seq<nat>>) {
    forall k :: 0 <= k < |schedule| ==> IsOrder(s, schedule[k])
  }

  /** The memory after the first k slices, four to a pass. */
  function FillSlices(g: Compress, s: Shape, m: seq<Block>, k: nat, schedule: seq<seq<nat>>): (r: seq<Block>)
    requires IsMemory(s, m) && IsShape(s) && k <= |schedule| && k < TWO_64 && IsSchedule(s, schedule)
    ensures IsMemory(s, r)
    decreases k
  {
    if k == 0 then m
    else
      assert IsOrder(s, schedule[k - 1]);
      FillLanes(g, s, FillSlices(g, s, m, k - 1, schedule), (k - 1) / SYNC_POINTS, (k - 1) % SYNC_POINTS, schedule[k - 1])
  }

  lemma SameLanes(s: Shape, a: seq<nat>, b: seq<nat>)
    requires IsOrder(s, a) && IsOrder(s, b)
    ensures AreLanes(s, a) && AreLanes(s, b) && forall x :: x in a <==> x in b
  {
    forall x
      ensures x in a <==> x in b
    {
      assert x in a ==> x < s.lanes;
      assert x in b ==> x < s.lanes;
    }
  }

  /** Main result: over all passes, the order of the lanes within the slices does not matter. */
  lemma {:induction false} AnySchedule(g: Compress, s: Shape, m: seq<Block>, k: nat, a: seq<seq<nat>>, b: seq<seq<nat>>)
    requires IsMemory(s, m) && IsShape(s) && k <= |a| && k <= |b| && k < TWO_64 && IsSchedule(s, a) && IsSchedule(s, b)
    ensures FillSlices(g, s, m, k, a) == FillSlices(g, s, m, k, b)
    decreases k
  {
    hide FillLanes, IsOrder, IsMemory, IsShape;
    if k > 0 {
      AnySchedule(g, s, m, k - 1, a, b);
      assert IsOrder(s, a[k - 1]) && IsOrder(s, b[k - 1]);
      SameLanes(s, a[k - 1], b[k - 1]);
      AnyLaneOrder(g, s, FillSlices(g, s, m, k - 1, a), (k - 1) / SYNC_POINTS, (k - 1) % SYNC_POINTS, a[k - 1], b[k - 1]);
    }
  }

  // ---------------------------------------------------------------- the first pass reads what was filled

  /** Filled in the first pass before block `index` of a segment. */
  predicate IsFilled(s: Shape, j: Job, index: nat, lane: nat, column: nat) {
    lane < s.lanes && column < s.laneLength
    && (column < 2 || column < j.slice * s.segmentLength || (lane == j.lane && column < j.slice * s.segmentLength + index))
  }

  ghost predicate FilledAgree(s: Shape, m: seq<Block>, w: seq<Block>, j: Job, index: nat)
    requires IsMemory(s, m) && IsMemory(s, w)
  {
    forall lane: nat, column: nat :: IsFilled(s, j, index, lane, column) ==> BlockAt(s, m, lane, column) == BlockAt(s, w, lane, column)
  }

  lemma FilledNewBlock(g: Compress, s: Shape, m: seq<Block>, w: seq<Block>, j: Job, index: nat)
    requires IsMemory(s, m) && IsMemory(s, w) && IsJob(s, j) && j.pass == 0 && FirstIndex(j) <= index < s.segmentLength
    requires FilledAgree(s, m, w, j, index)
    ensures NewBlock(g, s, m, j, index) == NewBlock(g, s, w, j, index)
  {
    hide BlockAt, ReferenceColumn, ReferenceLane, RandomWord, IsShape;
    ColumnInRange(s, j, index);
    var prev := PreviousColumn(s, ColumnOf(s, j, index));
    assert IsFilled(s, j, index, j.lane, prev);
    var random := RandomWord(g, s, j, |m|, index, Previous(s, m, j, index));
    ReferenceSafe(s, j, index, random);
    assert IsFilled(s, j, index, ReferenceLane(s, j, random), ReferenceColumn(s, j, index, random));
  }

  lemma FilledStep(g: Compress, s: Shape, m: seq<Block>, w: seq<Block>, j: Job, index: nat)
    requires IsMemory(s, m) && IsMemory(s, w) && IsJob(s, j) && j.pass == 0 && FirstIndex(j) <= index < s.segmentLength
    requires FilledAgree(s, m, w, j, index)
    ensures FilledAgree(s, FillOne(g, s, m, j, index), FillOne(g, s, w, j, index), j, index + 1)
  {
    FilledNewBlock(g, s, m, w, j, index);
    hide BlockAt, FillOne, NewBlock, IsJob, IsMemory;
    var m', w' := FillOne(g, s, m, j, index), FillOne(g, s, w, j, index);
    forall lane: nat, column: nat | IsFilled(s, j, index + 1, lane, column)
      ensures BlockAt(s, m', lane, column) == BlockAt(s, w', lane, column)
    {
      FilledAt(g, s, m, j, index, lane, column);
      FilledAt(g, s, w, j, index, lane, column);
      assert (lane == j.lane && column == ColumnOf(s, j, index)) || IsFilled(s, j, index, lane, column);
    }
  }

  lemma {:induction false} FilledSegment(g: Compress, s: Shape, m: seq<Block>, w: seq<Block>, j: Job, index: nat)
    requires IsMemory(s, m) && IsMemory(s, w) && IsJob(s, j) && j.pass == 0 && FirstIndex(j) <= index <= s.segmentLength
    requires FilledAgree(s, m, w, j, FirstIndex(j))
    ensures FilledAgree(s, FillTo(g, s, m, j, index), FillTo(g, s, w, j, index), j, index)
    decreases index
  {
    hide FilledAgree, FillOne, IsJob, IsMemory;
    if index > FirstIndex(j) {
      FilledSegment(g, s, m, w, j, index - 1);
      FilledStep(g, s, FillTo(g, s, m, j, index - 1), FillTo(g, s, w, j, index - 1), j, index - 1);
    }
  }

  /** All columns before the slice agree, and the first two. */
  ghost predicate AgreeBelow(s: Shape, m: seq<Block>, w: seq<Block>, slice: nat)
    requires IsMemory(s, m) && IsMemory(s, w)
  {
    forall lane: nat, column: nat :: lane < s.lanes && column < s.laneLength && (column < 2 || column < slice * s.segmentLength) ==>
      BlockAt(s, m, lane, column) == BlockAt(s, w, lane, column)
  }

  lemma SegmentStart(s: Shape, m: seq<Block>, w: seq<Block>, j: Job)
    requires IsMemory(s, m) && IsMemory(s, w) && IsJob(s, j) && j.pass == 0 && AgreeBelow(s, m, w, j.slice)
    ensures FilledAgree(s, m, w, j, FirstIndex(j))
  {
    hide BlockAt;
  }

  lemma SliceAgrees(g: Compress, s: Shape, m: seq<Block>, w: seq<Block>, slice: nat, lane: nat, column: nat)
    requires IsMemory(s, m) && IsMemory(s, w) && IsShape(s) && slice < SYNC_POINTS && AgreeBelow(s, m, w, slice)
    requires lane < s.lanes && column < s.laneLength && InSlice(s, slice, column)
    ensures BlockAt(s, Fill(g, s, m, Job(0, lane, slice)), lane, column) == BlockAt(s, Fill(g, s, w, Job(0, lane, slice)), lane, column)
  {
    var j := Job(0, lane, slice);
    hide BlockAt, FillTo, IsMemory, AgreeBelow;
    SegmentStart(s, m, w, j);
    FilledSegment(g, s, m, w, j, s.segmentLength);
    InSliceEnd(s, slice, column);
    assert IsFilled(s, j, s.segmentLength, lane, column);
  }

  lemma InSliceEnd(s: Shape, slice: nat, column: nat)
    requires InSlice(s, slice, column)
    ensures column < slice * s.segmentLength + s.segmentLength
  {
  }

  /** One slice more of the first pass. */
  lemma FirstPassSlice(g: Compress, s: Shape, m: seq<Block>, w: seq<Block>, slice: nat, order: seq<nat>)
    requires IsMemory(s, m) && IsMemory(s, w) && IsShape(s) && slice < SYNC_POINTS && IsOrder(s, order) && AgreeBelow(s, m, w, slice)
    ensures forall i :: 0 <= i < |order| ==> order[i] < s.lanes
    ensures AgreeBelow(s, FillLanes(g, s, m, 0, slice, order), FillLanes(g, s, w, 0, slice, order), slice + 1)
  {
    LanesAreParallel(g, s, m, 0, slice, order);
    LanesAreParallel(g, s, w, 0, slice, order);
    var u, v := FillLanes(g, s, m, 0, slice, order), FillLanes(g, s, w, 0, slice, order);
    hide BlockAt, Fill, FillLanes, IsMemory, IsParallel, AreLanes;
    forall lane: nat, column: nat | lane < s.lanes && column < s.laneLength && (column < 2 || column < (slice + 1) * s.segmentLength)
      ensures BlockAt(s, u, lane, column) == BlockAt(s, v, lane, column)
    {
      ParallelAt(g, s, m, 0, slice, order, u, lane, column);
      ParallelAt(g, s, w, 0, slice, order, v, lane, column);
      if InSlice(s, slice, column) {
        SliceAgrees(g, s, m, w, slice, lane, column);
      }
    }
  }

  lemma {:induction false} FirstPass(g: Compress, s: Shape, m: seq<Block>, w: seq<Block>, k: nat, schedule: seq<seq<nat>>)
    requires IsMemory(s, m) && IsMemory(s, w) && IsShape(s) && k <= SYNC_POINTS && k <= |schedule| && IsSchedule(s, schedule)
    requires AgreeBelow(s, m, w, 0)
    ensures AgreeBelow(s, FillSlices(g, s, m, k, schedule), FillSlices(g, s, w, k, schedule), k)
    decreases k
  {
    hide FillLanes, IsOrder, IsMemory, IsShape, AgreeBelow;
    if k > 0 {
      FirstPass(g, s, m, w, k - 1, schedule);
      assert IsOrder(s, schedule[k - 1]);
      FirstPassSlice(g, s, FillSlices(g, s, m, k - 1, schedule), FillSlices(g, s, w, k - 1, schedule), k - 1, schedule[k - 1]);
    }
  }

  /**
   Main result: nothing is read before it is filled. The first pass turns any two memories
   with the same first two blocks in every lane into the same memory.
   */
  lemma OnlySeedsMatter(g: Compress, s: Shape, m: seq<Block>, w: seq<Block>, schedule: seq<seq<nat>>)
    requires IsMemory(s, m) && IsMemory(s, w) && IsShape(s) && |schedule| >= SYNC_POINTS && IsSchedule(s, schedule)
    requires forall lane: nat, column: nat :: lane < s.lanes && column < 2 ==> BlockAt(s, m, lane, column) == BlockAt(s, w, lane, column)
    ensures FillSlices(g, s, m, SYNC_POINTS, schedule) == FillSlices(g, s, w, SYNC_POINTS, schedule)
  {
    hide BlockAt, FillSlices, IsMemory, IsSchedule;
    FirstPass(g, s, m, w, SYNC_POINTS, schedule);
    SameMemory(s, FillSlices(g, s, m, SYNC_POINTS, schedule), FillSlices(g, s, w, SYNC_POINTS, schedule));
  }

  // ---------------------------------------------------------------- the loops

  method CombineBlocks(a: Block, b: Block) returns (r: Block)
    ensures r == XorBlocks(a, b)
  {
    r := a;
    for i := 0 to BLOCK_WORDS
      invariant forall k :: 0 <= k < BLOCK_WORDS ==> r[k] == if k < i then XorWords(a[k], b[k]) else a[k]
    {
      r := r[i := XorWords(a[i], b[i])];
    }
  }

  lemma CounterBumped(s: Shape, j: Job, blocks: Word, counter: Word)
    requires IsJob(s, j) && j.pass < TWO_64 && counter < TWO_32
    ensures AddressInput(s, j, blocks, counter)[6] == counter
    ensures AddressInput(s, j, blocks, counter)[6 := counter + 1] == AddressInput(s, j, blocks, counter + 1)
  {
  }

  /** `next_addresses`: the counter is bumped, then the input is compressed twice. */
  method NextAddresses(g: Compress, input: Block, ghost s: Shape, ghost j: Job, ghost blocks: Word, ghost counter: Word) returns (next: Block, addresses: Block)
    requires IsJob(s, j) && j.pass < TWO_64 && counter < TWO_32 && input == AddressInput(s, j, blocks, counter)
    ensures next == AddressInput(s, j, blocks, counter + 1) && addresses == AddressBlock(g, s, j, blocks, counter + 1)
  {
    CounterBumped(s, j, blocks, counter);
    next := input[6 := input[6] + 1];
    var inner := g(ZeroBlock(), next);
    addresses := g(ZeroBlock(), inner);
  }

  /** The number of address blocks drawn before block `index`. */
  function Drawn(index: nat): nat {
    (index + ADDRESSES_PER_BLOCK - 1) / ADDRESSES_PER_BLOCK
  }

  lemma DrawnNext(index: nat)
    ensures index % ADDRESSES_PER_BLOCK == 0 ==> Drawn(index) + 1 == index / ADDRESSES_PER_BLOCK + 1 == Drawn(index + 1)
    ensures index % ADDRESSES_PER_BLOCK != 0 ==> Drawn(index) == index / ADDRESSES_PER_BLOCK + 1 == Drawn(index + 1)
    ensures Drawn(0) == 0 && Drawn(2) == 1 && Drawn(index) <= index
  {
  }

  lemma FillOneWrites(g: Compress, s: Shape, m: seq<Block>, j: Job, index: nat, b: Block)
    requires IsMemory(s, m) && IsJob(s, j) && j.pass < TWO_64 && FirstIndex(j) <= index < s.segmentLength && b == NewBlock(g, s, m, j, index)
    ensures ColumnOf(s, j, index) < s.laneLength && Place(s, j.lane, ColumnOf(s, j, index)) < |m|
    ensures m[Place(s, j.lane, ColumnOf(s, j, index)) := b] == FillOne(g, s, m, j, index)
  {
    hide NewBlock;
    ColumnInRange(s, j, index);
    PlaceInRange(s, j.lane, ColumnOf(s, j, index));
  }

  /** The new block of one turn of the loop. */
  method Mix(g: Compress, s: Shape, memory: array<Block>, j: Job, index: nat, random: Word) returns (b: Block)
    requires IsMemory(s, memory[..]) && IsJob(s, j) && j.pass < TWO_64 && FirstIndex(j) <= index < s.segmentLength
    requires random == RandomWord(g, s, j, memory.Length, index, Previous(s, memory[..], j, index))
    ensures b == NewBlock(g, s, memory[..], j, index)
  {
    hide ReferenceColumn, ReferenceLane, RandomWord;
    ColumnInRange(s, j, index);
    ReferenceSafe(s, j, index, random);
    var column := ColumnOf(s, j, index);
    PlaceInRange(s, j.lane, PreviousColumn(s, column));
    PlaceInRange(s, ReferenceLane(s, j, random), ReferenceColumn(s, j, index, random));
    PlaceInRange(s, j.lane, column);
    var prev := memory[Place(s, j.lane, PreviousColumn(s, column))];
    var reference := memory[Place(s, ReferenceLane(s, j, random), ReferenceColumn(s, j, index, random))];
    var mixed := g(prev, reference);
    if j.pass == 0 {
      b := mixed;
    } else {
      b := CombineBlocks(memory[Place(s, j.lane, column)], mixed);
    }
  }

  lemma NothingFilled(g: Compress, s: Shape, m: seq<Block>, j: Job)
    requires IsMemory(s, m) && IsJob(s, j) && j.pass < TWO_64
    ensures FirstIndex(j) <= s.segmentLength && FillTo(g, s, m, j, FirstIndex(j)) == m
  {
  }

  lemma OneFilled(g: Compress, s: Shape, m: seq<Block>, j: Job, index: nat)
    requires IsMemory(s, m) && IsJob(s, j) && j.pass < TWO_64 && FirstIndex(j) <= index < s.segmentLength
    ensures FillTo(g, s, m, j, index + 1) == FillOne(g, s, FillTo(g, s, m, j, index), j, index)
  {
    hide FillOne;
  }

  lemma PreviousRead(s: Shape, m: seq<Block>, j: Job, index: nat)
    requires IsMemory(s, m) && IsJob(s, j) && FirstIndex(j) <= index < s.segmentLength
    ensures 0 <= PreviousColumn(s, ColumnOf(s, j, index)) && Place(s, j.lane, PreviousColumn(s, ColumnOf(s, j, index))) < |m|
    ensures Previous(s, m, j, index) == m[Place(s, j.lane, PreviousColumn(s, ColumnOf(s, j, index)))]
  {
    ColumnInRange(s, j, index);
    PlaceInRange(s, j.lane, PreviousColumn(s, ColumnOf(s, j, index)));
  }

  lemma RandomIs(g: Compress, s: Shape, j: Job, blocks: Word, index: nat, prev: Block, addresses: Block)
    requires IsJob(s, j) && j.pass < TWO_64 && index < s.segmentLength
    requires Independent(j) ==> addresses == AddressBlock(g, s, j, blocks, index / ADDRESSES_PER_BLOCK + 1)
    ensures RandomWord(g, s, j, blocks, index, prev) == if Independent(j) then addresses[index % ADDRESSES_PER_BLOCK] else prev[0]
  {
  }

  lemma ShapeBounds(s: Shape, j: Job)
    requires IsJob(s, j)
    ensures s.segmentLength < TWO_32 && s.segmentLength >= 2 && j.lane < TWO_32
  {
  }

  /** The input block and the addresses before block `index`. */
  ghost predicate Addressed(g: Compress, s: Shape, j: Job, blocks: Word, index: nat, input: Block, addresses: Block) {
    IsJob(s, j) && j.pass < TWO_64 && index <= s.segmentLength && Drawn(index) < TWO_32
    && input == AddressInput(s, j, blocks, Drawn(index))
    && (index % ADDRESSES_PER_BLOCK != 0 ==> addresses == AddressBlock(g, s, j, blocks, Drawn(index)))
  }

  /** The addresses for block `index`: a fresh address block every 128 blocks. */
  method AddressesFor(g: Compress, s: Shape, j: Job, input: Block, addresses: Block, index: nat, ghost blocks: Word) returns (next: Block, drawn: Block)
    requires IsJob(s, j) && j.pass < TWO_64 && index < s.segmentLength && Addressed(g, s, j, blocks, index, input, addresses)
    ensures Addressed(g, s, j, blocks, index + 1, next, drawn)
    ensures drawn == AddressBlock(g, s, j, blocks, index / ADDRESSES_PER_BLOCK + 1)
  {
    ShapeBounds(s, j);
    DrawnNext(index);
    hide AddressInput, AddressBlock, IsJob, Drawn;
    next, drawn := input, addresses;
    if index % ADDRESSES_PER_BLOCK == 0 {
      next, drawn := NextAddresses(g, input, s, j, blocks, Drawn(index));
    }
  }

  /** One turn of the loop, with the addresses at hand. */
  method FillBlock(g: Compress, s: Shape, memory: array<Block>, j: Job, index: nat, addresses: Block)
    requires IsMemory(s, memory[..]) && IsJob(s, j) && j.pass < TWO_64 && FirstIndex(j) <= index < s.segmentLength
    requires Independent(j) ==> addresses == AddressBlock(g, s, j, memory.Length, index / ADDRESSES_PER_BLOCK + 1)
    modifies memory
    ensures memory[..] == FillOne(g, s, old(memory[..]), j, index)
  {
    hide AddressInput, AddressBlock, FillOne, NewBlock, IsJob, RandomWord, Previous, Place, ColumnOf, PreviousColumn;
    PreviousRead(s, memory[..], j, index);
    var prev := memory[Place(s, j.lane, PreviousColumn(s, ColumnOf(s, j, index)))];
    RandomIs(g, s, j, memory.Length, index, prev, addresses);
    var random := if Independent(j) then addresses[index % ADDRESSES_PER_BLOCK] else prev[0];
    var b := Mix(g, s, memory, j, index, random);
    FillOneWrites(g, s, memory[..], j, index, b);
    memory[Place(s, j.lane, ColumnOf(s, j, index))] := b;
  }

  ghost predicate FilledSoFar(g: Compress, s: Shape, was: seq<Block>, j: Job, index: nat, m: seq<Block>) {
    IsMemory(s, was) && IsJob(s, j) && j.pass < TWO_64 && index <= s.segmentLength && IsMemory(s, m) && m == FillTo(g, s, was, j, index)
  }

  lemma NoneFilled(g: Compress, s: Shape, m: seq<Block>, j: Job)
    requires IsMemory(s, m) && IsJob(s, j) && j.pass < TWO_64
    ensures FilledSoFar(g, s, m, j, FirstIndex(j), m) && FirstIndex(j) <= s.segmentLength
  {
    NothingFilled(g, s, m, j);
  }

  lemma MoreFilled(g: Compress, s: Shape, was: seq<Block>, j: Job, index: nat, m: seq<Block>)
    requires FilledSoFar(g, s, was, j, index, m) && FirstIndex(j) <= index < s.segmentLength
    ensures IsMemory(s, m) && IsJob(s, j) && j.pass < TWO_64
    ensures FilledSoFar(g, s, was, j, index + 1, FillOne(g, s, m, j, index))
  {
    hide FillTo, FillOne, IsMemory, IsJob;
    OneFilled(g, s, was, j, index);
  }

  lemma AllFilled(g: Compress, s: Shape, was: seq<Block>, j: Job, m: seq<Block>)
    requires FilledSoFar(g, s, was, j, s.segmentLength, m)
    ensures IsMemory(s, was) && IsJob(s, j) && j.pass < TWO_64 && m == Fill(g, s, was, j)
  {
    FillIs(g, s, was, j);
  }

  lemma PassFits(s: Shape, j: Job)
    requires IsJob(s, j) && j.pass < TWO_64
    ensures Drawn(0) == 0 && Drawn(2) == 1 && s.segmentLength >= 2
  {
  }

  /** The addresses before the first block that is filled. */
  method FirstAddresses(g: Compress, s: Shape, j: Job, blocks: Word) returns (input: Block, addresses: Block)
    requires IsJob(s, j) && j.pass < TWO_64
    ensures Independent(j) ==> Addressed(g, s, j, blocks, FirstIndex(j), input, addresses)
  {
    PassFits(s, j);
    addresses := ZeroBlock();
    input := ZeroBlock();
    hide AddressInput, AddressBlock, IsJob, Drawn;
    if Independent(j) {
      input := AddressInput(s, j, blocks, 0);
    }
    if j.pass == 0 && j.slice == 0 {
      input, addresses := NextAddresses(g, input, s, j, blocks, 0);
    }
  }

  /** `fill_segment`: the addresses drawn on the way are those of the specification. */
  method FillSegment(g: Compress, s: Shape, memory: array<Block>, j: Job)
    requires IsMemory(s, memory[..]) && IsJob(s, j) && j.pass < TWO_64
    modifies memory
    ensures memory[..] == Fill(g, s, old(memory[..]), j)
  {
    ghost var was := memory[..];
    ghost var blocks := memory.Length;
    NoneFilled(g, s, was, j);
    var input, addresses := FirstAddresses(g, s, j, memory.Length);
    hide Addressed, FilledSoFar, AddressBlock, Fill, FillOne, IsMemory, IsJob, FirstIndex;
    for index := FirstIndex(j) to s.segmentLength
      invariant FilledSoFar(g, s, was, j, index, memory[..])
      invariant Independent(j) ==> Addressed(g, s, j, blocks, index, input, addresses)
    {
      MoreFilled(g, s, was, j, index, memory[..]);
      if Independent(j) {
        input, addresses := AddressesFor(g, s, j, input, addresses, index, blocks);
      }
      FillBlock(g, s, memory, j, index, addresses);
    }
    AllFilled(g, s, was, j, memory[..]);
  }

  lemma FillIs(g: Compress, s: Shape, m: seq<Block>, j: Job)
    requires IsMemory(s, m) && IsJob(s, j) && j.pass < TWO_64
    ensures Fill(g, s, m, j) == FillTo(g, s, m, j, s.segmentLength)
  {
  }

  /** The lanes from 0 on. */
  function InOrder(n: nat): (r: seq<nat>)
    ensures |r| == n && forall i :: 0 <= i < n ==> r[i] == i
  {
    seq(n, i => i)
  }

  lemma InOrderIsOrder(s: Shape)
    ensures IsOrder(s, InOrder(s.lanes))
  {
    forall lane: nat | lane < s.lanes
      ensures lane in InOrder(s.lanes)
    {
      assert InOrder(s.lanes)[lane] == lane;
    }
  }

  function Sequential(s: Shape, k: nat): (r: seq<seq<nat>>)
    ensures |r| == k && IsSchedule(s, r)
  {
    InOrderIsOrder(s);
    seq(k, i => InOrder(s.lanes))
  }

  lemma NextLane(g: Compress, s: Shape, m: seq<Block>, pass: nat, slice: nat, lane: nat)
    requires IsMemory(s, m) && IsShape(s) && pass < TWO_64 && slice < SYNC_POINTS && lane < s.lanes
    ensures FillLanes(g, s, m, pass, slice, InOrder(lane + 1)) == Fill(g, s, FillLanes(g, s, m, pass, slice, InOrder(lane)), Job(pass, lane, slice))
  {
    assert InOrder(lane + 1)[..lane] == InOrder(lane);
    hide Fill;
  }

  /** One slice: the lanes one after the other. */
  method FillSlice(g: Compress, s: Shape, memory: array<Block>, pass: nat, slice: nat)
    requires IsMemory(s, memory[..]) && IsShape(s) && pass < TWO_64 && slice < SYNC_POINTS
    modifies memory
    ensures memory[..] == FillLanes(g, s, old(memory[..]), pass, slice, InOrder(s.lanes))
  {
    ghost var was := memory[..];
    assert FillLanes(g, s, was, pass, slice, InOrder(0)) == was;
    hide Fill, FillLanes, IsMemory;
    for lane := 0 to s.lanes
      invariant memory[..] == FillLanes(g, s, was, pass, slice, InOrder(lane))
    {
      NextLane(g, s, was, pass, slice, lane);
      FillSegment(g, s, memory, Job(pass, lane, slice));
    }
  }

  /** The memory after k of n slices, lane after lane. */
  ghost predicate SlicesDone(g: Compress, s: Shape, was: seq<Block>, n: nat, k: nat, m: seq<Block>) {
    IsMemory(s, was) && IsShape(s) && k <= n < TWO_64 && IsMemory(s, m) && m == FillSlices(g, s, was, k, Sequential(s, n))
  }

  lemma NextSlice(g: Compress, s: Shape, was: seq<Block>, pass: nat, slice: nat, n: nat, m: seq<Block>)
    requires SlicesDone(g, s, was, n, SYNC_POINTS * pass + slice, m) && slice < SYNC_POINTS && SYNC_POINTS * pass + slice < n
    ensures IsMemory(s, m) && IsShape(s) && pass < TWO_64
    ensures SlicesDone(g, s, was, n, SYNC_POINTS * pass + slice + 1, FillLanes(g, s, m, pass, slice, InOrder(s.lanes)))
  {
    hide FillLanes, IsMemory, IsShape;
    var k := SYNC_POINTS * pass + slice;
    assert k / SYNC_POINTS == pass && k % SYNC_POINTS == slice;
  }

  method FillPass(g: Compress, s: Shape, memory: array<Block>, pass: nat, ghost was: seq<Block>, ghost n: nat)
    requires SlicesDone(g, s, was, n, SYNC_POINTS * pass, memory[..]) && SYNC_POINTS * pass + SYNC_POINTS <= n
    modifies memory
    ensures SlicesDone(g, s, was, n, SYNC_POINTS * pass + SYNC_POINTS, memory[..])
  {
    hide FillLanes, IsMemory, IsShape, SlicesDone, InOrder;
    for slice := 0 to SYNC_POINTS
      invariant SlicesDone(g, s, was, n, SYNC_POINTS * pass + slice, memory[..])
    {
      NextSlice(g, s, was, pass, slice, n, memory[..]);
      FillSlice(g, s, memory, pass, slice);
    }
  }

  lemma NoSlices(g: Compress, s: Shape, m: seq<Block>, n: nat)
    requires IsMemory(s, m) && IsShape(s) && n < TWO_64
    ensures SlicesDone(g, s, m, n, 0, m)
  {
  }

  lemma AllSlices(g: Compress, s: Shape, was: seq<Block>, n: nat, m: seq<Block>, schedule: seq<seq<nat>>)
    requires SlicesDone(g, s, was, n, n, m) && |schedule| == n && IsSchedule(s, schedule)
    ensures IsMemory(s, was) && IsShape(s) && n < TWO_64 && m == FillSlices(g, s, was, n, schedule)
  {
    AnySchedule(g, s, was, n, schedule, Sequential(s, n));
    hide FillSlices;
  }

  /** All passes. Any other order of the lanes would leave the same memory. */
  method FillMemory(g: Compress, s: Shape, memory: array<Block>, ghost schedule: seq<seq<nat>>)
    requires IsMemory(s, memory[..]) && IsShape(s) && SYNC_POINTS * s.passes < TWO_64
    requires |schedule| == SYNC_POINTS * s.passes && IsSchedule(s, schedule)
    modifies memory
    ensures memory[..] == FillSlices(g, s, old(memory[..]), SYNC_POINTS * s.passes, schedule)
  {
    ghost var was := memory[..];
    ghost var n := SYNC_POINTS * s.passes;
    hide FillSlices, IsMemory, IsShape, IsSchedule, SlicesDone;
    NoSlices(g, s, was, n);
    for pass := 0 to s.passes
      invariant SlicesDone(g, s, was, n, SYNC_POINTS * pass, memory[..])
    {
      FillPass(g, s, memory, pass, was, n);
    }
    AllSlices(g, s, was, n, memory[..], schedule);
  }
}
