/**
 The hash-chained audit log: each committed statement appends an entry that extends the
 previous root, and the head commits to the whole history.
 */
module AuditChain {
  import opened Wrappers
  import opened EngineData
  import opened Tables
  import opened RowChanges
  import Merkle

  function AuditCipher(master: nat): CipherKey {
    CipherKey(master, AuditPurpose)
  }

  const GENESIS: Head := Head(0, Zeros)

  // ---------------------------------------------------------------- committing

  /** The clock and the fresh nonces of one statement. */
  datatype Env = Env(time: nat, nonces: Nonces)

  datatype Commit = Commit(writes: Batch, head: Head)

  function NewEntry(head: Head, time: nat, kind: Kind, table: Option<Tag>, digest: Digest): AuditEntry {
    AuditEntry(head.number, time, kind, table, digest, head.root)
  }

  /** The batch with its audit entry and the new head. */
  function WithAudit(head: Head, master: nat, env: Env, kind: Kind, table: Option<Tag>, digest: Digest, writes: Batch): Commit {
    var entry := NewEntry(head, env.time, kind, table, digest);
    var next := Head(head.number + 1, RootOf(entry));
    var at := Audit(head.number);
    var b := writes[at := Some(Seal(AuditCipher(master), env.nonces, AuditPlain(entry), at))];
    Commit(b[AuditHead := Some(Seal(AuditCipher(master), env.nonces, HeadPlain(next), AuditHead))], next)
  }

  /** A statement that writes nothing does not advance the chain. */
  function Audited(head: Head, master: nat, env: Env, kind: Kind, table: Option<Tag>, writes: Batch): Commit {
    if writes == map[] then Commit(writes, head)
    else WithAudit(head, master, env, kind, table, WritesOf(writes), writes)
  }

  // ---------------------------------------------------------------- verification

  function AuditNumbers(view: View): (r: set<nat>)
    ensures forall n :: n in r <==> Audit(n) in view
  {
    var r := set k | k in view.Keys && k.Audit? :: k.number;
    assert forall n :: Audit(n) in view.Keys ==> Audit(n).number in r;
    r
  }

  datatype Chain = Chain(entries: seq<AuditEntry>, root: Digest)

  /** One more stored entry checked against the chain so far. */
  function Extend(view: View, master: nat, chain: Chain, n: nat): Result<Chain, Error>
  {
    match Get(view, AuditCipher(master), Audit(n))
    case Failure(_) => Failure(AuditError)
    case Success(Some(AuditPlain(e))) =>
      if e.number != |chain.entries| || e.prev != chain.root then Failure(AuditError)
      else Success(Chain(chain.entries + [e], RootOf(e)))
    case Success(_) => Failure(CorruptError)
  }

  function ScanChain(view: View, master: nat, numbers: seq<nat>): Result<Chain, Error>
  {
    if numbers == [] then Success(Chain([], Zeros))
    else
      var n := |numbers| - 1;
      var chain :- ScanChain(view, master, numbers[..n]);
      Extend(view, master, chain, numbers[n])
  }

  /** Recompute the chain from genesis, in key order, and compare it with the head. */
  function Verify(view: View, master: nat, head: Head): Result<seq<AuditEntry>, Error> {
    var chain :- ScanChain(view, master, Sorted(AuditNumbers(view)));
    if Head(|chain.entries|, chain.root) == head then Success(chain.entries) else Failure(AuditError)
  }

  // ---------------------------------------------------------------- histories

  function RootAfter(entries: seq<AuditEntry>): Digest {
    if entries == [] then Zeros else RootOf(entries[|entries| - 1])
  }

  /** Every entry is numbered by its position and extends the root before it. */
  ghost predicate Chained(entries: seq<AuditEntry>) {
    forall i :: 0 <= i < |entries| ==> entries[i].number == i && entries[i].prev == RootAfter(entries[..i])
  }

  function HeadOf(entries: seq<AuditEntry>): Head {
    Head(|entries|, RootAfter(entries))
  }

  /** Main result: two chained histories with the same head are the same history. */
  lemma {:induction false} HeadDeterminesHistory(a: seq<AuditEntry>, b: seq<AuditEntry>)
    requires Chained(a) && Chained(b) && HeadOf(a) == HeadOf(b)
    ensures a == b
  {
    if a != [] {
      var n := |a| - 1;
      assert a[n] == b[n];
      ChainedPrefix(a, n);
      ChainedPrefix(b, n);
      HeadDeterminesHistory(a[..n], b[..n]);
      assert a == a[..n] + [a[n]] && b == b[..n] + [b[n]];
    }
  }

  lemma ChainedPrefix(a: seq<AuditEntry>, n: nat)
    requires Chained(a) && n <= |a|
    ensures Chained(a[..n])
  {
    forall i | 0 <= i < n
      ensures a[..n][i].number == i && a[..n][i].prev == RootAfter(a[..n][..i])
    {
      assert a[..n][..i] == a[..i];
    }
  }

  lemma ChainedAppend(a: seq<AuditEntry>, e: AuditEntry)
    requires Chained(a) && e.number == |a| && e.prev == RootAfter(a)
    ensures Chained(a + [e]) && HeadOf(a + [e]) == Head(|a| + 1, RootOf(e))
  {
    var b := a + [e];
    forall i | 0 <= i < |b|
      ensures b[i].number == i && b[i].prev == RootAfter(b[..i])
    {
      assert b[..i] == a[..i];
      assert a[..|a|] == a;
    }
  }

  // ---------------------------------------------------------------- the invariant

  /** The log holds exactly this history. */
  ghost predicate Holds(view: View, master: nat, entries: seq<AuditEntry>) {
    && (forall n: nat :: Audit(n) in view <==> n < |entries|)
    && (forall n: nat :: n < |entries| ==> Boxed(view, AuditCipher(master), Audit(n)) && view[Audit(n)].plain == AuditPlain(entries[n]))
    && (AuditHead in view <==> entries != [])
    && (AuditHead in view ==> Boxed(view, AuditCipher(master), AuditHead) && view[AuditHead].plain == HeadPlain(HeadOf(entries)))
  }

  /** The log holds a chained history that ends in the head. */
  ghost predicate AuditInv(view: View, master: nat, head: Head, entries: seq<AuditEntry>) {
    Holds(view, master, entries) && Chained(entries) && head == HeadOf(entries)
  }

  lemma CommitKeepsAudit(view: View, master: nat, head: Head, entries: seq<AuditEntry>, env: Env, kind: Kind, table: Option<Tag>,
                         digest: Digest, writes: Batch)
    requires AuditInv(view, master, head, entries) && forall k :: k in writes ==> Owner(k).Some?
    ensures var c := WithAudit(head, master, env, kind, table, digest, writes);
      AuditInv(Apply(c.writes, view), master, c.head, entries + [NewEntry(head, env.time, kind, table, digest)])
  {
    var e := NewEntry(head, env.time, kind, table, digest);
    CommitWrites(head, master, env, kind, table, digest, writes);
    hide *;
    var c := WithAudit(head, master, env, kind, table, digest, writes);
    InvParts(view, master, head, entries);
    ChainedAppend(entries, e);
    StoredAfter(view, Apply(c.writes, view), master, entries, e, c.writes, env);
    InvFrom(Apply(c.writes, view), master, c.head, entries + [e]);
  }

  lemma CommitWrites(head: Head, master: nat, env: Env, kind: Kind, table: Option<Tag>, digest: Digest, writes: Batch)
    requires forall k :: k in writes ==> Owner(k).Some?
    ensures var c, e := WithAudit(head, master, env, kind, table, digest, writes), NewEntry(head, env.time, kind, table, digest);
      && (forall n: nat :: Audit(n) in c.writes <==> n == head.number) && AuditHead in c.writes
      && c.writes[Audit(head.number)] == Some(Seal(AuditCipher(master), env.nonces, AuditPlain(e), Audit(head.number)))
      && c.writes[AuditHead] == Some(Seal(AuditCipher(master), env.nonces, HeadPlain(c.head), AuditHead))
      && c.head == Head(head.number + 1, RootOf(e)) && e.number == head.number && e.prev == head.root
  {
    forall n: nat
      ensures Audit(n) !in writes
    {
      assert Owner(Audit(n)) == None;
    }
  }

  lemma InvParts(view: View, master: nat, head: Head, entries: seq<AuditEntry>)
    requires AuditInv(view, master, head, entries)
    ensures Holds(view, master, entries) && Chained(entries) && head == HeadOf(entries)
    ensures head.number == |entries| && head.root == RootAfter(entries)
  {
  }

  lemma InvFrom(view: View, master: nat, head: Head, entries: seq<AuditEntry>)
    requires Holds(view, master, entries) && Chained(entries) && head == HeadOf(entries)
    ensures AuditInv(view, master, head, entries)
  {
  }

  lemma StoredAfter(view: View, w: View, master: nat, entries: seq<AuditEntry>, e: AuditEntry, b: Batch, env: Env)
    requires Holds(view, master, entries) && w == Apply(b, view)
    requires forall n: nat :: Audit(n) in b <==> n == |entries|
    requires AuditHead in b && b[Audit(|entries|)] == Some(Seal(AuditCipher(master), env.nonces, AuditPlain(e), Audit(|entries|)))
    requires b[AuditHead] == Some(Seal(AuditCipher(master), env.nonces, HeadPlain(HeadOf(entries + [e])), AuditHead))
    ensures Holds(w, master, entries + [e])
  {
    hide HeadOf;
    var after := entries + [e];
    forall n: nat
      ensures Audit(n) in w <==> n < |after|
      ensures n < |after| ==> Boxed(w, AuditCipher(master), Audit(n)) && w[Audit(n)].plain == AuditPlain(after[n])
    {
      ApplyAt(b, view, Audit(n));
    }
    ApplyAt(b, view, AuditHead);
  }

  /** The keys below n in order. */
  function Below(n: nat): (r: seq<nat>)
    ensures |r| == n && forall i :: 0 <= i < n ==> r[i] == i
  {
    if n == 0 then [] else Below(n - 1) + [n - 1]
  }

  lemma BelowMembers(n: nat)
    ensures Ascending(Below(n)) && forall x: nat :: x in Below(n) <==> x < n
  {
    forall x: nat | x < n
      ensures x in Below(n)
    {
      assert Below(n)[x] == x;
    }
  }

  lemma ChainedAt(entries: seq<AuditEntry>, i: nat)
    requires Chained(entries) && i < |entries|
    ensures entries[i].number == i && entries[i].prev == RootAfter(entries[..i])
  {
  }

  /** The next stored entry extends the chain of the entries before it. */
  lemma ExtendHistory(view: View, master: nat, entries: seq<AuditEntry>, n: nat)
    requires Holds(view, master, entries) && Chained(entries) && n < |entries|
    ensures Extend(view, master, Chain(entries[..n], RootAfter(entries[..n])), n)
         == Success(Chain(entries[..n + 1], RootAfter(entries[..n + 1])))
  {
    ChainedAt(entries, n);
    assert Get(view, AuditCipher(master), Audit(n)) == Success(Some(AuditPlain(entries[n])));
    hide Holds, Chained, Get;
    assert entries[..n + 1] == entries[..n] + [entries[n]];
  }

  lemma BelowNext(n: nat)
    requires n > 0
    ensures Below(n)[..n - 1] == Below(n - 1) && Below(n)[n - 1] == n - 1
  {
  }

  lemma {:induction false} ScanHistory(view: View, master: nat, entries: seq<AuditEntry>, n: nat)
    requires Holds(view, master, entries) && Chained(entries) && n <= |entries|
    ensures ScanChain(view, master, Below(n)) == Success(Chain(entries[..n], RootAfter(entries[..n])))
    decreases n
  {
    hide Holds, Chained, Extend, Below;
    if n > 0 {
      ScanHistory(view, master, entries, n - 1);
      BelowNext(n);
      ExtendHistory(view, master, entries, n - 1);
    }
  }

  /** Main result: verification succeeds on every log that keeps the invariant, with the whole history. */
  lemma VerifySucceeds(view: View, master: nat, head: Head, entries: seq<AuditEntry>)
    requires AuditInv(view, master, head, entries)
    ensures Verify(view, master, head) == Success(entries)
  {
    hide *;
    var n := |entries|;
    InvParts(view, master, head, entries);
    NumbersBelow(view, master, entries);
    BelowMembers(n);
    AscendingUnique(Sorted(AuditNumbers(view)), Below(n));
    ScanHistory(view, master, entries, n);
    assert entries[..n] == entries;
    VerifyScanned(view, master, head, Chain(entries, RootAfter(entries)));
  }

  lemma NumbersBelow(view: View, master: nat, entries: seq<AuditEntry>)
    requires Holds(view, master, entries)
    ensures forall x: nat :: x in AuditNumbers(view) <==> x < |entries|
  {
  }

  lemma VerifyScanned(view: View, master: nat, head: Head, chain: Chain)
    requires ScanChain(view, master, Sorted(AuditNumbers(view))) == Success(chain) && head == Head(|chain.entries|, chain.root)
    ensures Verify(view, master, head) == Success(chain.entries)
  {
  }

  lemma {:induction false} ScanIsChained(view: View, master: nat, numbers: seq<nat>)
    requires ScanChain(view, master, numbers).Success?
    ensures var c := ScanChain(view, master, numbers).value;
      Chained(c.entries) && c.root == RootAfter(c.entries)
  {
    if numbers != [] {
      var n := |numbers| - 1;
      ScanIsChained(view, master, numbers[..n]);
      var c, d := ScanChain(view, master, numbers[..n]).value, ScanChain(view, master, numbers).value;
      ChainedAppend(c.entries, d.entries[|c.entries|]);
      hide Chained;
    }
  }

  /** Whatever the store holds, a verified log is a chained history ending in the head. */
  lemma VerifiedIsChained(view: View, master: nat, head: Head)
    requires Verify(view, master, head).Success?
    ensures Chained(Verify(view, master, head).value) && head == HeadOf(Verify(view, master, head).value)
  {
    ScanIsChained(view, master, Sorted(AuditNumbers(view)));
  }

  /** Two stores that verify under the same head hold the same history. */
  lemma SameHeadSameHistory(v: View, m: nat, w: View, n: nat, head: Head)
    requires Verify(v, m, head).Success? && Verify(w, n, head).Success?
    ensures Verify(v, m, head) == Verify(w, n, head)
  {
    VerifiedIsChained(v, m, head);
    VerifiedIsChained(w, n, head);
    HeadDeterminesHistory(Verify(v, m, head).value, Verify(w, n, head).value);
  }

  /** Verified entries are numbered as inclusion proofs need. */
  lemma VerifiedIsNumbered(view: View, master: nat, head: Head)
    requires Verify(view, master, head).Success?
    ensures Merkle.Numbered(Verify(view, master, head).value)
  {
    VerifiedIsChained(view, master, head);
  }

  /** The log holds this entry, sealed, at one of its numbers. */
  ghost predicate Stored(view: View, master: nat, e: AuditEntry) {
    exists n :: Get(view, AuditCipher(master), Audit(n)) == Success(Some(AuditPlain(e)))
  }

  lemma {:induction false} ScannedAreStored(view: View, master: nat, numbers: seq<nat>, i: nat)
    requires ScanChain(view, master, numbers).Success? && i < |ScanChain(view, master, numbers).value.entries|
    ensures Stored(view, master, ScanChain(view, master, numbers).value.entries[i])
    decreases |numbers|
  {
    hide Get;
    if numbers != [] {
      var n := |numbers| - 1;
      if i < |ScanChain(view, master, numbers[..n]).value.entries| {
        ScannedAreStored(view, master, numbers[..n], i);
      }
    }
  }

  /**
   Main result: once the log verifies, an inclusion proof accepted against its Merkle root,
   whatever its total and siblings, is for an entry that the log holds at that position of a
   chained history ending in the head.
   */
  lemma AcceptedIsLogged(view: View, master: nat, head: Head, entry: AuditEntry, proof: Merkle.Proof)
    requires Verify(view, master, head).Success? && Verify(view, master, head).value != []
    requires Merkle.Accepts(entry, proof, Merkle.Root(Merkle.Leaves(Verify(view, master, head).value)))
    ensures var entries := Verify(view, master, head).value;
      && proof.index < |entries| && entries[proof.index] == entry && Stored(view, master, entry)
      && Chained(entries) && head == HeadOf(entries)
  {
    VerifiedIsChained(view, master, head);
    VerifiedIsNumbered(view, master, head);
    hide Merkle.Accepts, Merkle.Root, Merkle.Leaves, Merkle.Numbered, Chained, Stored, HeadOf, ScanChain;
    Merkle.ProofsSound(Verify(view, master, head).value, entry, proof);
    ScannedAreStored(view, master, Sorted(AuditNumbers(view)), proof.index);
  }

  // ---------------------------------------------------------------- the head commits to the tables

  /** Everything but the audit log. */
  function TableKeys(view: View): View {
    map k | k in view && Owner(k).Some? :: view[k]
  }

  /** The tables that a history of statement batches builds from nothing. */
  function Replay(entries: seq<AuditEntry>): View {
    if entries == [] then map[]
    else
      var before := Replay(entries[..|entries| - 1]);
      var e := entries[|entries| - 1];
      if e.writes.WritesOf? then Apply(e.writes.batch, before) else before
  }

  lemma CommitKeepsReplay(view: View, master: nat, head: Head, entries: seq<AuditEntry>, env: Env, kind: Kind, table: Option<Tag>, writes: Batch)
    requires TableKeys(view) == Replay(entries) && forall k :: k in writes ==> Owner(k).Some?
    ensures var c := WithAudit(head, master, env, kind, table, WritesOf(writes), writes);
      TableKeys(Apply(c.writes, view)) == Replay(entries + [NewEntry(head, env.time, kind, table, WritesOf(writes))])
  {
    var e := NewEntry(head, env.time, kind, table, WritesOf(writes));
    var c := WithAudit(head, master, env, kind, table, WritesOf(writes), writes);
    assert (entries + [e])[..|entries|] == entries;
    assert TableKeys(Apply(c.writes, view)) == Apply(writes, TableKeys(view));
  }
}
