/**
 The Merkle tree over audit entries: built level by level with lone nodes promoted, and
 shown equal to the tree of RFC 6962 section 2.1, with its inclusion proofs.
 */
module Merkle {
  import opened Wrappers
  import opened EngineData

  // ---------------------------------------------------------------- the tree, level by level

  /** One level up: neighbours are paired, a lone last node is promoted. */
  function Next(level: seq<Digest>): (up: seq<Digest>)
    ensures |up| == (|level| + 1) / 2
  {
    if |level| <= 1 then level
    else [Node(level[0], level[1])] + Next(level[2..])
  }

  function Levels(leaves: seq<Digest>): (levels: seq<seq<Digest>>)
    ensures |levels| >= 1 && levels[0] == leaves && |levels[|levels| - 1]| <= 1
    ensures |leaves| > 0 ==> |levels[|levels| - 1]| == 1
    decreases |leaves|
  {
    if |leaves| <= 1 then [leaves] else [leaves] + Levels(Next(leaves))
  }

  /** The digest the levels end in. */
  function Root(leaves: seq<Digest>): Digest
    requires |leaves| > 0
    decreases |leaves|
  {
    if |leaves| == 1 then leaves[0] else Root(Next(leaves))
  }

  lemma LevelsUnfold(leaves: seq<Digest>)
    requires |leaves| > 1
    ensures 1 <= |Next(leaves)| < |leaves| && Levels(leaves) == [leaves] + Levels(Next(leaves))
  {
  }

  lemma LevelsStop(leaves: seq<Digest>)
    requires |leaves| <= 1
    ensures Levels(leaves) == [leaves]
  {
  }

  lemma RootUnfold(leaves: seq<Digest>)
    requires |leaves| > 1
    ensures |Next(leaves)| >= 1 && Root(leaves) == Root(Next(leaves))
  {
  }

  lemma {:induction false} LevelsEndInRoot(leaves: seq<Digest>)
    requires |leaves| > 0
    ensures Levels(leaves)[|Levels(leaves)| - 1] == [Root(leaves)]
    decreases |leaves|
  {
    if |leaves| > 1 {
      hide *;
      LevelsUnfold(leaves);
      RootUnfold(leaves);
      LevelsEndInRoot(Next(leaves));
    } else {
      assert leaves == [leaves[0]];
    }
  }

  lemma {:induction false} NextAt(level: seq<Digest>, i: nat)
    requires 2 * i < |level|
    ensures Next(level)[i] == if 2 * i + 1 < |level| then Node(level[2 * i], level[2 * i + 1]) else level[2 * i]
    decreases |level|
  {
    if i > 0 {
      NextAt(level[2..], i - 1);
    }
  }

  /** The inner loop that builds one level. */
  method BuildNext(cur: seq<Digest>) returns (next: seq<Digest>)
    requires |cur| > 1
    ensures next == Next(cur)
  {
    next := [];
    var i := 0;
    while i < |cur|
      invariant 0 <= i <= |cur| && next + Next(cur[i..]) == Next(cur)
    {
      if i + 1 < |cur| {
        assert cur[i..][2..] == cur[i + 2..];
        next := next + [Node(cur[i], cur[i + 1])];
        i := i + 2;
      } else {
        assert cur[i..] == [cur[i]] && cur[i + 1..] == [];
        next := next + [cur[i]];
        i := i + 1;
      }
    }
  }

  method MerkleLevels(leaves: seq<Digest>) returns (levels: seq<seq<Digest>>)
    ensures levels == Levels(leaves)
  {
    hide *;
    levels := [leaves];
    ghost var done: seq<seq<Digest>> := [];
    assert done + Levels(leaves) == Levels(leaves);
    while |levels[|levels| - 1]| > 1
      invariant |levels| == |done| + 1 && levels == done + [levels[|done|]]
      invariant done + Levels(levels[|done|]) == Levels(leaves)
      decreases |levels[|levels| - 1]|
    {
      var cur := levels[|levels| - 1];
      LevelsUnfold(cur);
      var next := BuildNext(cur);
      MoveOver(done, cur, Levels(next));
      done := levels;
      levels := levels + [next];
    }
    LevelsStop(levels[|done|]);
  }

  lemma MoveOver(done: seq<seq<Digest>>, cur: seq<Digest>, rest: seq<seq<Digest>>)
    ensures done + ([cur] + rest) == (done + [cur]) + rest
  {
  }

  // ---------------------------------------------------------------- the tree of RFC 6962

  /** The largest power of two below n. */
  function SplitPoint(n: nat): (k: nat)
    requires n >= 2
    ensures 1 <= k < n <= 2 * k && (k == 1 || k % 2 == 0)
  {
    if n == 2 then 1 else 2 * SplitPoint((n + 1) / 2)
  }

  ghost predicate IsPowerOfTwo(k: nat) {
    k == 1 || (k >= 2 && k % 2 == 0 && IsPowerOfTwo(k / 2))
  }

  lemma {:induction false} SplitPointIsPower(n: nat)
    requires n >= 2
    ensures IsPowerOfTwo(SplitPoint(n))
  {
    if n > 2 {
      SplitPointIsPower((n + 1) / 2);
    }
  }

  function TreeHash(leaves: seq<Digest>): Digest
    requires |leaves| > 0
    decreases |leaves|
  {
    if |leaves| == 1 then leaves[0]
    else
      var k := SplitPoint(|leaves|);
      Node(TreeHash(leaves[..k]), TreeHash(leaves[k..]))
  }

  /** The audit path of leaf m, from the leaf up. */
  function Path(leaves: seq<Digest>, m: nat): seq<Digest>
    requires m < |leaves|
    decreases |leaves|
  {
    if |leaves| == 1 then []
    else
      var k := SplitPoint(|leaves|);
      if m < k then Path(leaves[..k], m) + [TreeHash(leaves[k..])]
      else Path(leaves[k..], m - k) + [TreeHash(leaves[..k])]
  }

  lemma {:induction false} NextOfConcat(a: seq<Digest>, b: seq<Digest>)
    requires |a| % 2 == 0
    ensures Next(a + b) == Next(a) + Next(b)
    decreases |a|
  {
    if a == [] {
      assert a + b == b;
    } else {
      assert (a + b)[2..] == a[2..] + b;
      NextOfConcat(a[2..], b);
      assert [Node(a[0], a[1])] + Next(a[2..]) + Next(b) == [Node(a[0], a[1])] + (Next(a[2..]) + Next(b));
    }
  }

  lemma HalfSplit(n: nat)
    requires n > 2
    ensures SplitPoint(n) == 2 * SplitPoint((n + 1) / 2)
  {
  }

  /** Cutting a level at an even split point and moving up are interchangeable. */
  lemma NextOfHalves(leaves: seq<Digest>)
    requires |leaves| > 2
    ensures var k, j := SplitPoint(|leaves|), SplitPoint((|leaves| + 1) / 2);
      && k == 2 * j && |Next(leaves)| >= 2 && SplitPoint(|Next(leaves)|) == j
      && Next(leaves[..k]) == Next(leaves)[..j] && Next(leaves[k..]) == Next(leaves)[j..]
  {
    hide *;
    var k, j := SplitPoint(|leaves|), SplitPoint((|leaves| + 1) / 2);
    HalfSplit(|leaves|);
    assert |Next(leaves)| == (|leaves| + 1) / 2;
    var a, b := leaves[..k], leaves[k..];
    assert leaves == a + b;
    NextOfParts(leaves, a, b, j);
  }

  lemma NextOfParts(leaves: seq<Digest>, a: seq<Digest>, b: seq<Digest>, j: nat)
    requires leaves == a + b && |a| == 2 * j
    ensures j <= |Next(leaves)| && Next(a) == Next(leaves)[..j] && Next(b) == Next(leaves)[j..]
  {
    hide *;
    NextOfConcat(a, b);
  }

  lemma RootOfNext(leaves: seq<Digest>)
    requires |leaves| > 0
    ensures |Next(leaves)| > 0 && Root(Next(leaves)) == Root(leaves)
  {
    if |leaves| == 1 {
      assert Next(leaves) == leaves;
    }
  }

  /** The level-by-level root splits at the largest power of two. */
  lemma {:induction false} RootSplits(leaves: seq<Digest>)
    requires |leaves| >= 2
    ensures var k := SplitPoint(|leaves|);
      Root(leaves) == Node(Root(leaves[..k]), Root(leaves[k..]))
    decreases |leaves|
  {
    if |leaves| == 2 {
      var up := Next(leaves);
      assert leaves[2..] == [] && up == [Node(leaves[0], leaves[1])];
      assert Root(leaves) == Root(up) == up[0];
    } else {
      NextOfHalves(leaves);
      RootSplits(Next(leaves));
      var k := SplitPoint(|leaves|);
      RootOfNext(leaves[..k]);
      RootOfNext(leaves[k..]);
    }
  }

  /** Main result: promotion of lone nodes builds exactly the tree of RFC 6962. */
  lemma {:induction false} RootIsTreeHash(leaves: seq<Digest>)
    requires |leaves| > 0
    ensures Root(leaves) == TreeHash(leaves)
    decreases |leaves|
  {
    if |leaves| > 1 {
      var k := SplitPoint(|leaves|);
      RootSplits(leaves);
      RootIsTreeHash(leaves[..k]);
      RootIsTreeHash(leaves[k..]);
    }
  }

  // ---------------------------------------------------------------- inclusion proofs

  /** The sibling of pos in one level, if it has one. */
  function Sibling(level: seq<Digest>, pos: nat): seq<Digest>
    requires pos < |level|
  {
    if pos % 2 == 1 then [level[pos - 1]] else if pos + 1 < |level| then [level[pos + 1]] else []
  }

  function Siblings(leaves: seq<Digest>, pos: nat): seq<Digest>
    requires pos < |leaves|
    decreases |leaves|
  {
    if |leaves| == 1 then [] else Sibling(leaves, pos) + Siblings(Next(leaves), pos / 2)
  }

  lemma SiblingsOfNext(leaves: seq<Digest>, pos: nat)
    requires pos < |leaves|
    ensures pos / 2 < |Next(leaves)|
    ensures Siblings(leaves, pos) == Sibling(leaves, pos) + Siblings(Next(leaves), pos / 2)
  {
    if |leaves| == 1 {
      assert Next(leaves) == leaves;
    }
  }

  lemma SiblingsOfPair(leaves: seq<Digest>, pos: nat)
    requires |leaves| == 2 && pos < 2
    ensures SplitPoint(|leaves|) == 1 && Siblings(leaves[..1], 0) == Siblings(leaves[1..], 0) == []
    ensures Root(leaves[..1]) == leaves[0] && Root(leaves[1..]) == leaves[1]
    ensures Siblings(leaves, pos) == [leaves[1 - pos]]
  {
    var up := Next(leaves);
    assert |up| == 1 && Siblings(up, pos / 2) == [];
  }

  /** Collecting siblings from the halves. */
  lemma {:induction false} SiblingsSplit(leaves: seq<Digest>, pos: nat)
    requires 2 <= |leaves| && pos < |leaves|
    ensures var k := SplitPoint(|leaves|);
      Siblings(leaves, pos) == if pos < k then Siblings(leaves[..k], pos) + [Root(leaves[k..])]
                               else Siblings(leaves[k..], pos - k) + [Root(leaves[..k])]
    decreases |leaves|
  {
    hide *;
    var k := SplitPoint(|leaves|);
    if |leaves| == 2 {
      SiblingsOfPair(leaves, pos);
    } else {
      var j := SplitPoint((|leaves| + 1) / 2);
      NextOfHalves(leaves);
      SiblingsSplit(Next(leaves), pos / 2);
      RootOfNext(leaves[..k]);
      RootOfNext(leaves[k..]);
      SiblingsOfNext(leaves, pos);
      if pos < k {
        SiblingsOfNext(leaves[..k], pos);
        SiblingInHalf(leaves, k, pos);
        assert Sibling(leaves, pos) + (Siblings(Next(leaves)[..j], pos / 2) + [Root(Next(leaves)[j..])])
            == (Sibling(leaves, pos) + Siblings(Next(leaves)[..j], pos / 2)) + [Root(Next(leaves)[j..])];
      } else {
        SiblingsOfNext(leaves[k..], pos - k);
        SiblingInHalf(leaves, k, pos);
        assert (pos - k) / 2 == pos / 2 - j;
        assert Sibling(leaves, pos) + (Siblings(Next(leaves)[j..], pos / 2 - j) + [Root(Next(leaves)[..j])])
            == (Sibling(leaves, pos) + Siblings(Next(leaves)[j..], pos / 2 - j)) + [Root(Next(leaves)[..j])];
      }
    }
  }

  lemma SiblingInHalf(leaves: seq<Digest>, k: nat, pos: nat)
    requires 0 < k < |leaves| && k % 2 == 0 && pos < |leaves|
    ensures Sibling(leaves, pos) == if pos < k then Sibling(leaves[..k], pos) else Sibling(leaves[k..], pos - k)
  {
    if pos < k {
      SiblingIs(leaves, pos);
      SiblingIs(leaves[..k], pos);
      assert pos % 2 == 0 ==> pos + 1 < k;
    } else {
      SiblingIs(leaves, pos);
      SiblingIs(leaves[k..], pos - k);
      assert (pos - k) % 2 == pos % 2;
      assert pos % 2 == 1 ==> pos - k >= 1;
    }
    hide *;
  }

  /** Main result: the generated siblings are the audit path of RFC 6962 section 2.1.1. */
  lemma {:induction false} SiblingsArePath(leaves: seq<Digest>, pos: nat)
    requires pos < |leaves|
    ensures Siblings(leaves, pos) == Path(leaves, pos)
    decreases |leaves|
  {
    if |leaves| > 1 {
      var k := SplitPoint(|leaves|);
      SiblingsSplit(leaves, pos);
      RootIsTreeHash(leaves[..k]);
      RootIsTreeHash(leaves[k..]);
      if pos < k {
        SiblingsArePath(leaves[..k], pos);
      } else {
        SiblingsArePath(leaves[k..], pos - k);
      }
    }
  }

  function Doubled(d: nat): nat {
    if d == 0 then 1 else 2 * Doubled(d - 1)
  }

  /** At most ceil(log2 n) siblings: at most d for any d with n <= 2^d. */
  lemma {:induction false} SiblingsFew(leaves: seq<Digest>, pos: nat, d: nat)
    requires pos < |leaves| <= Doubled(d)
    ensures |Siblings(leaves, pos)| <= d
    decreases |leaves|
  {
    if |leaves| > 1 {
      SiblingsFew(Next(leaves), pos / 2, d - 1);
    }
  }

  /** The verifier's climb; None when the siblings run out or are left over. */
  function Climb(hash: Digest, pos: nat, size: nat, siblings: seq<Digest>): Option<Digest>
    decreases size
  {
    if size <= 1 then if siblings == [] then Some(hash) else None
    else if pos % 2 == 1 then
      if siblings == [] then None else Climb(Node(siblings[0], hash), pos / 2, (size + 1) / 2, siblings[1..])
    else if pos + 1 < size then
      if siblings == [] then None else Climb(Node(hash, siblings[0]), pos / 2, (size + 1) / 2, siblings[1..])
    else Climb(hash, pos / 2, (size + 1) / 2, siblings)
  }

  /** One level of the climb. */
  lemma ClimbStep(leaves: seq<Digest>, hash: Digest, pos: nat, siblings: seq<Digest>)
    requires pos < |leaves| && |leaves| > 1
    ensures var n, own := (|leaves| + 1) / 2, Sibling(leaves, pos);
      Climb(hash, pos, |leaves|, siblings) ==
        if own == [] then Climb(hash, pos / 2, n, siblings)
        else if siblings == [] then None
        else Climb(if pos % 2 == 1 then Node(siblings[0], hash) else Node(hash, siblings[0]), pos / 2, n, siblings[1..])
    ensures var own := Sibling(leaves, pos);
      Next(leaves)[pos / 2] == if own == [] then leaves[pos]
                               else if pos % 2 == 1 then Node(own[0], leaves[pos]) else Node(leaves[pos], own[0])
    ensures |Sibling(leaves, pos)| <= 1
  {
    NextAt(leaves, pos / 2);
    hide Next;
  }

  /**
   Main result: with the right total, a climb ends in the root exactly for the leaf at
   that position and its generated siblings.
   */
  lemma {:induction false} ClimbExact(leaves: seq<Digest>, hash: Digest, pos: nat, siblings: seq<Digest>)
    requires pos < |leaves|
    ensures Climb(hash, pos, |leaves|, siblings) == Some(Root(leaves))
        <==> hash == leaves[pos] && siblings == Siblings(leaves, pos)
    decreases |leaves|
  {
    if |leaves| > 1 {
      hide *;
      var up := Next(leaves);
      ClimbStep(leaves, hash, pos, siblings);
      RootOfNext(leaves);
      SiblingsOfNext(leaves, pos);
      var own := Sibling(leaves, pos);
      if own == [] {
        ClimbExact(up, hash, pos / 2, siblings);
        assert own + Siblings(up, pos / 2) == Siblings(up, pos / 2);
      } else {
        assert own == [own[0]];
        assert (own + Siblings(up, pos / 2))[1..] == Siblings(up, pos / 2);
        if siblings != [] {
          assert siblings == [siblings[0]] + siblings[1..];
          ClimbExact(up, if pos % 2 == 1 then Node(siblings[0], hash) else Node(hash, siblings[0]), pos / 2, siblings[1..]);
        }
      }
    }
  }

  /** x is hashed somewhere inside d. */
  predicate Inside(x: Digest, d: Digest) {
    x == d || (d.Node? && (Inside(x, d.left) || Inside(x, d.right)))
  }

  /** Whatever total and siblings are claimed, a climb only wraps its starting hash. */
  lemma {:induction false} ClimbWraps(x: Digest, hash: Digest, pos: nat, size: nat, siblings: seq<Digest>)
    requires Inside(x, hash) && Climb(hash, pos, size, siblings).Some?
    ensures Inside(x, Climb(hash, pos, size, siblings).value)
    decreases size
  {
    if size > 1 {
      if pos % 2 == 1 {
        ClimbWraps(x, Node(siblings[0], hash), pos / 2, (size + 1) / 2, siblings[1..]);
      } else if pos + 1 < size {
        ClimbWraps(x, Node(hash, siblings[0]), pos / 2, (size + 1) / 2, siblings[1..]);
      } else {
        ClimbWraps(x, hash, pos / 2, (size + 1) / 2, siblings);
      }
    }
  }

  /** The only leaves inside a tree are the ones it was built over. */
  lemma {:induction false} InsideTree(x: Digest, leaves: seq<Digest>)
    requires |leaves| > 0 && x.Leaf? && Inside(x, TreeHash(leaves)) && forall i :: 0 <= i < |leaves| ==> leaves[i].Leaf?
    ensures x in leaves
    decreases |leaves|
  {
    if |leaves| > 1 {
      var k := SplitPoint(|leaves|);
      if Inside(x, TreeHash(leaves[..k])) {
        InsideTree(x, leaves[..k]);
      } else {
        InsideTree(x, leaves[k..]);
      }
    }
  }

  // ---------------------------------------------------------------- proofs for entries

  datatype Proof = Proof(index: nat, total: nat, siblings: seq<Digest>)

  function Leaves(entries: seq<AuditEntry>): (r: seq<Digest>)
    ensures |r| == |entries|
  {
    seq(|entries|, i requires 0 <= i < |entries| => Leaf(entries[i]))
  }

  predicate Accepts(entry: AuditEntry, proof: Proof, root: Digest) {
    proof.index == entry.number < proof.total
    && Climb(Leaf(entry), proof.index, proof.total, proof.siblings) == Some(root)
  }

  function ProofOf(entries: seq<AuditEntry>, index: nat): Proof
    requires index < |entries|
  {
    Proof(index, |entries|, Siblings(Leaves(entries), index))
  }

  /** Entries numbered by their position, as a verified chain is. */
  predicate Numbered(entries: seq<AuditEntry>) {
    forall i :: 0 <= i < |entries| ==> entries[i].number == i
  }

  /** Every generated proof is accepted, and is short. */
  lemma ProofsVerify(entries: seq<AuditEntry>, index: nat, d: nat)
    requires Numbered(entries) && index < |entries| <= Doubled(d)
    ensures Accepts(entries[index], ProofOf(entries, index), Root(Leaves(entries)))
    ensures |ProofOf(entries, index).siblings| <= d
  {
    ClimbExact(Leaves(entries), Leaf(entries[index]), index, Siblings(Leaves(entries), index));
    SiblingsFew(Leaves(entries), index, d);
  }

  /** Main result: an accepted proof, whatever its total and siblings, is for the entry at that position. */
  lemma ProofsSound(entries: seq<AuditEntry>, entry: AuditEntry, proof: Proof)
    requires Numbered(entries) && |entries| > 0 && Accepts(entry, proof, Root(Leaves(entries)))
    ensures proof.index < |entries| && entries[proof.index] == entry
  {
    var leaves := Leaves(entries);
    ClimbWraps(Leaf(entry), Leaf(entry), proof.index, proof.total, proof.siblings);
    RootIsTreeHash(leaves);
    InsideTree(Leaf(entry), leaves);
    var i :| 0 <= i < |leaves| && leaves[i] == Leaf(entry);
  }

  /** With the true total, acceptance is exactly being the generated proof of the stored entry. */
  lemma ProofsUnique(entries: seq<AuditEntry>, entry: AuditEntry, proof: Proof)
    requires Numbered(entries) && |entries| > 0 && proof.total == |entries|
    ensures Accepts(entry, proof, Root(Leaves(entries)))
        <==> proof.index < |entries| && entry == entries[proof.index] && proof == ProofOf(entries, proof.index)
  {
    if proof.index < |entries| {
      ClimbExact(Leaves(entries), Leaf(entry), proof.index, proof.siblings);
    }
  }

  /** The sibling loop of the proof generator. */
  method InclusionProof(entries: seq<AuditEntry>, index: nat) returns (proof: Proof, root: Digest)
    requires index < |entries|
    ensures proof == ProofOf(entries, index) && root == Root(Leaves(entries))
  {
    hide *;
    var leaves := Leaves(entries);
    var levels := MerkleLevels(leaves);
    LevelsEndInRoot(leaves);
    root := levels[|levels| - 1][0];
    var siblings: seq<Digest> := [];
    var pos := index;
    assert levels[0..] == levels && [] + Siblings(leaves, index) == Siblings(leaves, index);
    for i := 0 to |levels| - 1
      invariant 0 <= pos < |levels[i]|
      invariant levels[i..] == Levels(levels[i])
      invariant siblings + Siblings(levels[i], pos) == Siblings(leaves, index)
    {
      var level := levels[i];
      LevelBelow(levels, i);
      SiblingsOfNext(level, pos);
      assert siblings + (Sibling(level, pos) + Siblings(levels[i + 1], pos / 2))
          == (siblings + Sibling(level, pos)) + Siblings(levels[i + 1], pos / 2);
      SiblingIs(level, pos);
      ghost var before := siblings;
      if pos % 2 == 1 {
        siblings := siblings + [level[pos - 1]];
      } else if pos + 1 < |level| {
        siblings := siblings + [level[pos + 1]];
      }
      assert siblings == before + Sibling(level, pos);
      pos := pos / 2;
    }
    LastSiblings(levels[|levels| - 1], pos);
    proof := Proof(index, |entries|, siblings);
    ProofIs(entries, index);
  }

  lemma ProofIs(entries: seq<AuditEntry>, index: nat)
    requires index < |entries|
    ensures ProofOf(entries, index) == Proof(index, |entries|, Siblings(Leaves(entries), index))
  {
  }

  lemma SiblingIs(level: seq<Digest>, pos: nat)
    requires pos < |level|
    ensures Sibling(level, pos) == if pos % 2 == 1 then [level[pos - 1]] else if pos + 1 < |level| then [level[pos + 1]] else []
  {
  }

  lemma LevelBelow(levels: seq<seq<Digest>>, i: nat)
    requires i + 1 < |levels| && levels[i..] == Levels(levels[i])
    ensures |levels[i]| > 1 && levels[i + 1] == Next(levels[i]) && levels[i + 1..] == Levels(levels[i + 1])
  {
    hide Next, Levels;
    if |levels[i]| <= 1 {
      LevelsStop(levels[i]);
      assert false;
    }
    LevelsUnfold(levels[i]);
    assert levels[i..][1..] == levels[i + 1..];
    assert Levels(Next(levels[i]))[0] == Next(levels[i]);
  }

  lemma LastSiblings(level: seq<Digest>, pos: nat)
    requires pos < |level| <= 1
    ensures Siblings(level, pos) == []
  {
  }

  /** The verifier's loop. */
  method VerifyInclusion(entry: AuditEntry, proof: Proof, root: Digest) returns (ok: bool)
    ensures ok == Accepts(entry, proof, root)
  {
    if proof.index != entry.number || proof.index >= proof.total {
      return false;
    }
    var hash, pos, size, used := Leaf(entry), proof.index, proof.total, 0;
    while size > 1
      invariant 0 <= used <= |proof.siblings| && 0 <= pos && 0 <= size
      invariant Climb(hash, pos, size, proof.siblings[used..]) == Climb(Leaf(entry), proof.index, proof.total, proof.siblings)
      decreases size
    {
      var rest := proof.siblings[used..];
      if pos % 2 == 1 {
        if used == |proof.siblings| {
          return false;
        }
        assert rest[0] == proof.siblings[used] && rest[1..] == proof.siblings[used + 1..];
        hash, used := Node(proof.siblings[used], hash), used + 1;
      } else if pos + 1 < size {
        if used == |proof.siblings| {
          return false;
        }
        assert rest[0] == proof.siblings[used] && rest[1..] == proof.siblings[used + 1..];
        hash, used := Node(hash, proof.siblings[used]), used + 1;
      }
      pos, size := pos / 2, (size + 1) / 2;
    }
    ok := used == |proof.siblings| && hash == root;
  }
}
