/** What the store holds in the clear, and what an audit history says it holds. */
module Plaintexts {
  import opened Wrappers
  import opened EngineData
  import opened Tables
  import opened RowChanges
  import opened RangeBlobs
  import opened Queries
  import opened RowStatements
  import opened DataStatements
  import opened SchemaStatements
  import opened AuditChain
  import opened Database
  import opened PlanKeys
  import opened Rotation

  /** Where a piece of plain data belongs, whatever the master. */
  datatype Place = SchemaOf(table: string) | NextIdOf(table: string) | RowOf(table: string, id: nat)

  function KeyOf(master: nat, p: Place): Key {
    match p
    case SchemaOf(t) => Catalog(Tag(master, t))
    case NextIdOf(t) => Sequence(Tag(master, t))
    case RowOf(t, id) => Row(Tag(master, t), id)
  }

  /** A missing sequence counts from zero. */
  function Absent(p: Place): Option<Plain> {
    if p.NextIdOf? then Some(SequencePlain(0)) else None
  }

  function PlainOf(box: Option<Sealed>, p: Place): Option<Plain> {
    if box.Some? then Some(box.value.plain) else Absent(p)
  }

  function PlainAt(view: View, master: nat, p: Place): Option<Plain> {
    PlainOf(if KeyOf(master, p) in view then Some(view[KeyOf(master, p)]) else None, p)
  }

  /** What the last batch of the history that wrote a place has put there. */
  function Recorded(entries: seq<AuditEntry>, p: Place): Option<Plain> {
    if entries == [] then Absent(p)
    else
      var e := entries[|entries| - 1];
      if e.writes.WritesOf? && e.table.Some? && KeyOf(e.table.value.master, p) in e.writes.batch
      then PlainOf(e.writes.batch[KeyOf(e.table.value.master, p)], p)
      else Recorded(entries[..|entries| - 1], p)
  }

  /** The store holds, in the clear, what its history records. */
  ghost predicate Faithful(view: View, master: nat, entries: seq<AuditEntry>) {
    forall p: Place :: PlainAt(view, master, p) == Recorded(entries, p)
  }

  lemma RecordedNext(entries: seq<AuditEntry>, e: AuditEntry, p: Place)
    ensures Recorded(entries + [e], p) ==
      if e.writes.WritesOf? && e.table.Some? && KeyOf(e.table.value.master, p) in e.writes.batch
      then PlainOf(e.writes.batch[KeyOf(e.table.value.master, p)], p) else Recorded(entries, p)
  {
    assert (entries + [e])[..|entries|] == entries;
  }

  lemma CommitKeepsFaithful(view: View, master: nat, head: Head, entries: seq<AuditEntry>, env: Env, kind: Kind, tag: Tag, writes: Batch)
    requires Faithful(view, master, entries) && tag.master == master
    ensures var c := WithAudit(head, master, env, kind, Some(tag), WritesOf(writes), writes);
      Faithful(Apply(c.writes, view), master, entries + [NewEntry(head, env.time, kind, Some(tag), WritesOf(writes))])
  {
    var e := NewEntry(head, env.time, kind, Some(tag), WritesOf(writes));
    var c := WithAudit(head, master, env, kind, Some(tag), WritesOf(writes), writes);
    forall p: Place
      ensures PlainAt(Apply(c.writes, view), master, p) == Recorded(entries + [e], p)
    {
      RecordedNext(entries, e, p);
      ApplyAt(c.writes, view, KeyOf(master, p));
    }
  }

  // ---------------------------------------------------------------- rotation

  /** A named table whose plain data are those of another one. */
  ghost predicate PlainCopied(view: View, tag: Tag, w: View, to: Tag) {
    Named(w, to) && Catalog(to) in w && forall p: Place :: p.table == tag.table ==> PlainAt(w, to.master, p) == PlainAt(view, tag.master, p)
  }

  /** Rows that could all be fetched are what is stored. */
  lemma {:induction false} FetchedStored(view: View, tag: Tag, ids: seq<nat>)
    requires FetchAll(view, tag, ids).Success?
    ensures FetchAll(view, tag, ids).value == Present(view, tag, ids)
    ensures forall id :: id in ids && Row(tag, id) in view ==> view[Row(tag, id)].plain.RowPlain?
  {
    if ids != [] {
      var n := |ids| - 1;
      FetchedStored(view, tag, ids[..n]);
      assert ids == ids[..n] + [ids[n]];
      assert FetchRow(view, tag, ids[n]).Success?;
    }
  }

  ghost predicate RowsPlain(view: View, tag: Tag) {
    forall id :: Row(tag, id) in view ==> view[Row(tag, id)].plain.RowPlain?
  }

  /** What a snapshot that could be taken holds, whatever the indexes are. */
  lemma SnapshotTaken(view: View, tag: Tag)
    requires Named(view, tag) && SnapshotOf(view, tag).Success?
    ensures var s := SnapshotOf(view, tag).value;
      && Catalog(tag) in view && s.schema == SchemaAt(view, tag) && s.schema.name == tag.table && s.next == SequenceAt(view, tag)
      && (Sequence(tag) in view ==> view[Sequence(tag)].plain == SequencePlain(s.next))
      && FoundOk(view, tag, s.rows) && RowsPlain(view, tag) && forall id :: Row(tag, id) in view ==> IsFound(s.rows, id)
  {
    hide Named, ExpectSchema, FetchAll, FoundOk, IsFound, SchemaAt, Present;
    SchemaThere(view, tag);
    var ids := Sorted(RowIds(view, tag));
    FetchedStored(view, tag, ids);
    AscendingNoRepeats(ids);
    PresentOk(view, tag, ids);
    forall id | Row(tag, id) in view
      ensures IsFound(SnapshotOf(view, tag).value.rows, id) && view[Row(tag, id)].plain.RowPlain?
    {
      assert id in ids;
      PresentAll(view, tag, ids, id);
    }
  }

  lemma {:induction false} RowWritesPlain(tag: Tag, changes: seq<Change>, cols: seq<nat>, nonces: Nonces, k: Key)
    requires k in ChangesWrites(tag, changes, cols, nonces) && k.Row?
    ensures ChangesWrites(tag, changes, cols, nonces)[k].Some? ==> ChangesWrites(tag, changes, cols, nonces)[k].value.plain.RowPlain?
  {
    var n := |changes| - 1;
    IndexWritesAt(tag, changes[n], cols, nonces, k);
    if k !in ChangeWrites(tag, changes[n], cols, nonces) {
      RowWritesPlain(tag, changes[..n], cols, nonces, k);
    }
    hide IndexWrites;
  }

  /** The rebuilt rows are plain rows. */
  lemma RebuiltRows(bare: View, to: Tag, s: Snapshot, nonces: Nonces)
    requires Empty(bare, to)
    ensures RowsPlain(Apply(Rebuild(to, s, nonces), bare), to)
  {
    EmptyKeys(bare, to);
    ExtraKeepsRowKeys(bare, to, s, nonces);
    hide ChangesWrites, Rebuild, Apply, MaintainedColumns;
    var base := ChangesWrites(to, AsInsertions(s.rows), MaintainedColumns(s.schema), nonces);
    var v, w := Apply(base, bare), Apply(Rebuild(to, s, nonces), bare);
    forall id | Row(to, id) in w
      ensures w[Row(to, id)].plain.RowPlain?
    {
      var k := Row(to, id);
      assert k.Row? && k in v && v[k] == w[k];
      ApplyAt(base, bare, k);
      RowWritesPlain(to, AsInsertions(s.rows), MaintainedColumns(s.schema), nonces, k);
    }
  }

  lemma RebuiltRowsSame(view: View, tag: Tag, bare: View, to: Tag, s: Snapshot, nonces: Nonces)
    requires FoundOk(view, tag, s.rows) && (forall id :: Row(tag, id) in view ==> IsFound(s.rows, id)) && Empty(bare, to)
    ensures SameRowsAs(view, tag, Apply(Rebuild(to, s, nonces), bare), to)
  {
    hide *;
    var cols := MaintainedColumns(s.schema);
    InsertedRows(view, tag, bare, to, s.rows, cols, nonces);
    ExtraKeepsRowKeys(bare, to, s, nonces);
    var base, w := Apply(ChangesWrites(to, AsInsertions(s.rows), cols, nonces), bare), Apply(Rebuild(to, s, nonces), bare);
    FrameRows(base, w, to, s.schema);
    SameThrough(view, tag, base, w, to);
  }

  /** A table rebuilt where nothing was holds the same plain data, also if its indexes were wrong. */
  lemma RebuildKeepsPlain(view: View, tag: Tag, bare: View, to: Tag, nonces: Nonces)
    requires Named(view, tag) && SnapshotOf(view, tag).Success? && to.table == tag.table && Empty(bare, to)
    ensures PlainCopied(view, tag, Apply(Rebuild(to, SnapshotOf(view, tag).value, nonces), bare), to)
  {
    hide Named, SnapshotOf, Apply, Rebuild, FoundOk, IsFound, EntriesOf, SortEntries, Ranged, Empty, SameRowsAs, Contents;
    var s := SnapshotOf(view, tag).value;
    SnapshotTaken(view, tag);
    RebuiltRowsSame(view, tag, bare, to, s, nonces);
    RebuiltRows(bare, to, s, nonces);
    ExtraAfter(bare, to, s, nonces);
    var w := Apply(Rebuild(to, s, nonces), bare);
    NamedFrom(w, to, s.schema, nonces);
    forall p: Place | p.table == tag.table
      ensures PlainAt(w, to.master, p) == PlainAt(view, tag.master, p)
    {
      if p.RowOf? {
        RowPlainSame(view, tag, w, to, p.id);
      } else if p.SchemaOf? {
        CatalogPlain(view, tag);
      }
    }
  }

  lemma NamedFrom(w: View, to: Tag, schema: Schema, nonces: Nonces)
    requires Catalog(to) in w && w[Catalog(to)] == Seal(CatalogCipher(to.master), nonces, SchemaPlain(schema), Catalog(to)) && schema.name == to.table
    ensures Named(w, to)
  {
  }

  lemma CatalogPlain(view: View, tag: Tag)
    requires Named(view, tag) && Catalog(tag) in view
    ensures view[Catalog(tag)].plain == SchemaPlain(SchemaAt(view, tag))
  {
  }

  lemma RowPlainSame(view: View, tag: Tag, w: View, to: Tag, id: nat)
    requires SameRowsAs(view, tag, w, to) && RowsPlain(view, tag) && RowsPlain(w, to) && to.table == tag.table
    ensures PlainAt(w, to.master, RowOf(tag.table, id)) == PlainAt(view, tag.master, RowOf(tag.table, id))
  {
    assert Contents(view, tag, id) == Contents(w, to, id);
  }

  lemma PlainCopiedFrame(view: View, tag: Tag, w: View, x: View, to: Tag)
    requires PlainCopied(view, tag, w, to) && SameTable(w, x, to) && to.table == tag.table
    ensures PlainCopied(view, tag, x, to)
  {
    NamedFrame(w, x, to);
    assert Owner(Catalog(to)) == Some(to);
    forall p: Place | p.table == tag.table
      ensures PlainAt(x, to.master, p) == PlainAt(view, tag.master, p)
    {
      assert Owner(KeyOf(to.master, p)) == Some(to);
    }
  }

  /** A fresh store with the plain data of the first tables and nothing else. */
  ghost predicate HoldsPlain(view: View, master: nat, w: View, target: nat, names: seq<string>) {
    && (forall t :: t in names ==> PlainCopied(view, Tag(master, t), w, Tag(target, t)))
    && (forall t :: t !in names ==> Empty(w, Tag(target, t)))
    && (forall k :: k in w ==> Owner(k).Some? && Owner(k).value.master == target)
  }

  lemma HoldsPlainNext(view: View, master: nat, v: View, target: nat, names: seq<string>, t: string, b: Batch)
    requires HoldsPlain(view, master, v, target, names) && t !in names && OwnKeys(b, Tag(target, t))
    requires PlainCopied(view, Tag(master, t), Apply(b, v), Tag(target, t))
    ensures HoldsPlain(view, master, Apply(b, v), target, names + [t])
  {
    hide PlainCopied, Empty, SameTable, Apply;
    var w := Apply(b, v);
    forall x | x in names + [t]
      ensures PlainCopied(view, Tag(master, x), w, Tag(target, x))
    {
      if x != t {
        OthersKept(b, v, Tag(target, t), Tag(target, x));
        PlainCopiedFrame(view, Tag(master, x), v, w, Tag(target, x));
      }
    }
    forall x | x !in names + [t]
      ensures Empty(w, Tag(target, x))
    {
      OthersKept(b, v, Tag(target, t), Tag(target, x));
    }
    forall k | k in w
      ensures Owner(k).Some? && Owner(k).value.master == target
    {
      ApplyAt(b, v, k);
    }
  }

  lemma {:induction false} RebuiltHoldsPlain(view: View, master: nat, target: nat, names: seq<string>, nonces: Nonces)
    requires AllNamed(view, master) && Rebuilt(view, master, target, names, nonces).Success?
    requires forall i, j :: 0 <= i < j < |names| ==> names[i] != names[j]
    ensures HoldsPlain(view, master, Rebuilt(view, master, target, names, nonces).value, target, names)
  {
    hide Apply, SnapshotOf, Rebuild, PlainCopied, Named;
    if names != [] {
      var n := |names| - 1;
      var t := names[n];
      RebuiltHoldsPlain(view, master, target, names[..n], nonces);
      var before, s := Rebuilt(view, master, target, names[..n], nonces).value, SnapshotOf(view, Tag(master, t)).value;
      assert t !in names[..n];
      SnapshotTaken(view, Tag(master, t));
      RebuildKeepsPlain(view, Tag(master, t), before, Tag(target, t), nonces);
      RebuildOwn(Tag(target, t), s, nonces);
      HoldsPlainNext(view, master, before, target, names[..n], t, Rebuild(Tag(target, t), s, nonces));
      assert names[..n] + [t] == names;
    }
  }

  /** A rotation moves every piece of plain data to the new master. */
  ghost predicate SamePlain(view: View, master: nat, w: View, target: nat) {
    forall p: Place :: PlainAt(w, target, p) == PlainAt(view, master, p)
  }

  /** Two audit batches on top of the rebuilt tables. */
  lemma PlainUnderAudit(view: View, master: nat, tables: View, target: nat, names: seq<string>, b: Batch, c: Batch)
    requires AllNamed(view, master) && HoldsPlain(view, master, tables, target, names) && Lists(names, view, master)
    requires (forall k :: k in b ==> Owner(k).None?) && forall k :: k in c ==> Owner(k).None?
    ensures var w := Apply(c, Apply(b, tables));
      SamePlain(view, master, w, target) && AllNamed(w, target) && OneMaster(w, target)
  {
    hide Apply, PlainCopied, Empty, SameTable, Named, PlainAt;
    var v := Apply(b, tables);
    var w := Apply(c, v);
    forall t: string
      ensures Named(w, Tag(target, t))
      ensures forall p: Place :: p.table == t ==> PlainAt(w, target, p) == PlainAt(view, master, p)
    {
      AuditOnly(b, tables, Tag(target, t));
      AuditOnly(c, v, Tag(target, t));
      SameTableTwice(tables, v, w, Tag(target, t));
      if t in names {
        PlainCopiedFrame(view, Tag(master, t), tables, w, Tag(target, t));
        PlainCopiedParts(view, Tag(master, t), w, Tag(target, t));
      } else {
        EmptyFrame(tables, w, Tag(target, t));
        NothingPlain(w, Tag(target, t));
        assert Named(view, Tag(master, t));
        NamedNothing(view, Tag(master, t));
      }
    }
    forall p: Place
      ensures PlainAt(w, target, p) == PlainAt(view, master, p)
    {
      assert Named(w, Tag(target, p.table));
    }
    forall k | k in w && Owner(k).Some?
      ensures Owner(k).value.master == target
    {
      ApplyAt(c, v, k);
      ApplyAt(b, tables, k);
    }
  }

  lemma PlainCopiedParts(view: View, tag: Tag, w: View, to: Tag)
    requires PlainCopied(view, tag, w, to)
    ensures Named(w, to) && forall p: Place :: p.table == tag.table ==> PlainAt(w, to.master, p) == PlainAt(view, tag.master, p)
  {
  }

  lemma NothingPlain(view: View, tag: Tag)
    requires Empty(view, tag)
    ensures Named(view, tag) && forall p: Place :: p.table == tag.table ==> PlainAt(view, tag.master, p) == Absent(p)
  {
    assert Owner(Catalog(tag)) == Some(tag);
    forall p: Place | p.table == tag.table
      ensures PlainAt(view, tag.master, p) == Absent(p)
    {
      assert Owner(KeyOf(tag.master, p)) == Some(tag);
    }
  }

  lemma NamedNothing(view: View, tag: Tag)
    requires Named(view, tag) && Catalog(tag) !in view
    ensures forall p: Place :: p.table == tag.table ==> PlainAt(view, tag.master, p) == Absent(p)
  {
    hide PlainAt, Absent;
    NothingPlain(view, tag);
  }

  // ---------------------------------------------------------------- the log and what it records

  ghost predicate Unrotated(entries: seq<AuditEntry>) {
    forall i :: 0 <= i < |entries| ==> entries[i].kind != Rotate
  }

  /**
   The log is a chained history that ends in the head, and the store holds in the clear what
   the history records; without a rotation the history fixes every sealed box. Nothing is
   said of the indexes, the types or the uniqueness of what is stored.
   */
  ghost predicate LogInv(view: View, master: nat, head: Head, entries: seq<AuditEntry>) {
    && AuditInv(view, master, head, entries) && OneMaster(view, master) && AllNamed(view, master) && Faithful(view, master, entries)
    && (Unrotated(entries) ==> TableKeys(view) == Replay(entries))
  }

  lemma LogParts(view: View, master: nat, head: Head, entries: seq<AuditEntry>)
    requires LogInv(view, master, head, entries)
    ensures AuditInv(view, master, head, entries) && OneMaster(view, master) && AllNamed(view, master) && Faithful(view, master, entries)
    ensures head == HeadOf(entries) && Chained(entries)
    ensures Unrotated(entries) ==> TableKeys(view) == Replay(entries)
  {
  }

  lemma LogFrom(view: View, master: nat, head: Head, entries: seq<AuditEntry>)
    requires AuditInv(view, master, head, entries) && OneMaster(view, master) && AllNamed(view, master) && Faithful(view, master, entries)
    requires Unrotated(entries) ==> TableKeys(view) == Replay(entries)
    ensures LogInv(view, master, head, entries)
  {
  }

  /** The tables are right as well. */
  ghost predicate StoreInv(view: View, master: nat, head: Head, entries: seq<AuditEntry>) {
    TablesInv(view, master) && LogInv(view, master, head, entries)
  }

  lemma EmptyStore(master: nat)
    ensures StoreInv(map[], master, GENESIS, [])
  {
    EmptyDatabase(master);
    SoundIsNamed(map[], master);
    assert TableKeys(map[]) == Replay([]);
  }

  lemma StoreParts(view: View, master: nat, head: Head, entries: seq<AuditEntry>)
    requires StoreInv(view, master, head, entries)
    ensures DbInv(view, master, head, entries) && OneMaster(view, master) && LogInv(view, master, head, entries) && TablesInv(view, master)
  {
  }

  lemma WritesKeepMaster(view: View, master: nat, head: Head, env: Env, kind: Kind, tag: Tag, b: Batch)
    requires OneMaster(view, master) && OwnKeys(b, tag) && tag.master == master
    ensures OneMaster(Apply(Audited(head, master, env, kind, Some(tag), b).writes, view), master)
  {
    var c := Audited(head, master, env, kind, Some(tag), b);
    forall k | k in Apply(c.writes, view) && Owner(k).Some?
      ensures Owner(k).value.master == master
    {
      ApplyAt(c.writes, view, k);
    }
  }

  lemma UnrotatedNext(entries: seq<AuditEntry>, e: AuditEntry)
    ensures Unrotated(entries + [e]) ==> Unrotated(entries) && e.kind != Rotate
  {
    if Unrotated(entries + [e]) {
      assert (entries + [e])[|entries|] == e;
      assert forall i :: 0 <= i < |entries| ==> (entries + [e])[i] == entries[i];
    }
  }

  lemma WritesKeepNames(view: View, master: nat, head: Head, env: Env, kind: Kind, tag: Tag, b: Batch)
    requires AllNamed(view, master) && Orderly(b, view, tag) && tag.master == master
    ensures AllNamed(Apply(Audited(head, master, env, kind, Some(tag), b).writes, view), master)
  {
    hide Named, SameTable, Apply, Audited;
    AuditedKeys(head, master, env, kind, tag, b, view);
    var w := Apply(Audited(head, master, env, kind, Some(tag), b).writes, view);
    forall table: string
      ensures Named(w, Tag(master, table))
    {
      if Tag(master, table) == tag {
        NamedFrame(Apply(b, view), w, tag);
      } else {
        NamedFrame(view, w, Tag(master, table));
      }
    }
  }

  lemma AuditedKeepsLog(view: View, master: nat, head: Head, entries: seq<AuditEntry>, env: Env, kind: Kind, tag: Tag, b: Batch)
    requires LogInv(view, master, head, entries) && Orderly(b, view, tag) && tag.master == master
    ensures var c := Audited(head, master, env, kind, Some(tag), b);
      var after := if b == map[] then entries else entries + [NewEntry(head, env.time, kind, Some(tag), WritesOf(b))];
      LogInv(Apply(c.writes, view), master, c.head, after)
  {
    hide LogInv, AuditInv, AllNamed, Named, Faithful, Unrotated, TableKeys, Replay, NewEntry, WithAudit, Apply;
    LogParts(view, master, head, entries);
    var c, e := Audited(head, master, env, kind, Some(tag), b), NewEntry(head, env.time, kind, Some(tag), WritesOf(b));
    WritesKeepMaster(view, master, head, env, kind, tag, b);
    WritesKeepNames(view, master, head, env, kind, tag, b);
    if b == map[] {
      ApplyNothing(view);
    } else {
      CommitKeepsAudit(view, master, head, entries, env, kind, Some(tag), WritesOf(b), b);
      CommitKeepsFaithful(view, master, head, entries, env, kind, tag, b);
      UnrotatedNext(entries, e);
      if Unrotated(entries) {
        CommitKeepsReplay(view, master, head, entries, env, kind, Some(tag), b);
      }
      LogFrom(Apply(c.writes, view), master, c.head, entries + [e]);
    }
  }

  lemma TableNamed(view: View, master: nat, head: Head, entries: seq<AuditEntry>, table: string)
    requires LogInv(view, master, head, entries)
    ensures Named(view, Tag(master, table))
  {
  }

  /** Main result: every statement keeps the log and what it records, also one that finds or leaves wrong indexes. */
  lemma StatementKeepsLog(view: View, master: nat, head: Head, entries: seq<AuditEntry>, env: Env, s: Statement)
    requires LogInv(view, master, head, entries) && !IsControl(s)
    ensures var (w, h) := After(view, head, master, env, s);
      LogInv(w, master, h, HistoryAfter(entries, view, head, master, env, s))
  {
    hide LogInv, PlanOf, Query, KindOf, NewEntry, Audited, Orderly, Named;
    if Succeeds(view, master, env, s) {
      var tag, b := Tag(master, s.table), PlanOf(view, master, env.nonces, s).value.writes;
      SuccessShape(view, master, head, entries, env, s);
      TableNamed(view, master, head, entries, s.table);
      PlanOrderly(view, master, env.nonces, s);
      AuditedKeepsLog(view, master, head, entries, env, KindOf(s), tag, b);
    } else {
      ApplyNothing(view);
    }
  }

  /** Every statement that flips no zero keeps the invariant of the store. */
  lemma StatementKeepsStore(view: View, master: nat, head: Head, entries: seq<AuditEntry>, env: Env, s: Statement)
    requires StoreInv(view, master, head, entries) && !IsControl(s)
    requires Succeeds(view, master, env, s) ==> SignSafe(view, master, s)
    ensures var (w, h) := After(view, head, master, env, s);
      StoreInv(w, master, h, HistoryAfter(entries, view, head, master, env, s))
  {
    hide LogInv, SignSafe, After, HistoryAfter, Succeeds, TablesInv, AuditInv;
    StoreParts(view, master, head, entries);
    StatementKeepsInv(view, master, head, entries, env, s);
    StatementKeepsLog(view, master, head, entries, env, s);
  }

  /** A rotation that succeeds keeps the log and what it records, under the new master. */
  lemma RotationKeepsLog(view: View, head: Head, master: nat, entries: seq<AuditEntry>, target: nat, names: seq<string>, env: Env)
    requires LogInv(view, master, head, entries) && Lists(names, view, master) && RotateTo(view, head, master, target, names, env).Success?
    ensures var r := RotateTo(view, head, master, target, names, env).value;
      && LogInv(r.view, target, r.head, entries + [RotationEntry(head, env)]) && SamePlain(view, master, r.view, target)
  {
    hide LogInv, AuditInv, AllNamed, Rebuilt, CarriedAudit, Apply, WithAudit, Unrotated, TableKeys, Replay, TableNames, PlainAt, OneMaster, HoldsPlain,
         SamePlain, Lists, Faithful, NewEntry;
    LogParts(view, master, head, entries);
    var e, tables := RotationEntry(head, env), Rebuilt(view, master, target, names, env.nonces).value;
    ListsOnce(names, view, master);
    RebuiltHoldsPlain(view, master, target, names, env.nonces);
    HoldsPlainKeys(view, master, tables, target, names);
    RotatedAudit(view, master, head, entries, tables, target, env);
    AuditBatches(view, master, head, target, env);
    var b, c := CarriedAudit(view, master, target, env.nonces).value, WithAudit(head, target, env, Rotate, None, Zeros, map[]);
    PlainUnderAudit(view, master, tables, target, names, b, c.writes);
    var w := Apply(c.writes, Apply(b, tables));
    RotatedFaithful(view, master, w, target, entries, head, env);
    RotationEnds(entries, head, env);
    LogFrom(w, target, c.head, entries + [e]);
  }

  lemma ListsOnce(names: seq<string>, view: View, master: nat)
    requires Lists(names, view, master)
    ensures forall i, j :: 0 <= i < j < |names| ==> names[i] != names[j]
  {
  }

  lemma HoldsPlainKeys(view: View, master: nat, w: View, target: nat, names: seq<string>)
    requires HoldsPlain(view, master, w, target, names)
    ensures forall k :: k in w ==> Owner(k).Some?
  {
  }

  lemma RotationEnds(entries: seq<AuditEntry>, head: Head, env: Env)
    ensures !Unrotated(entries + [RotationEntry(head, env)])
  {
    UnrotatedNext(entries, RotationEntry(head, env));
  }

  lemma RotatedFaithful(view: View, master: nat, w: View, target: nat, entries: seq<AuditEntry>, head: Head, env: Env)
    requires SamePlain(view, master, w, target) && Faithful(view, master, entries)
    ensures Faithful(w, target, entries + [RotationEntry(head, env)])
  {
    hide PlainAt;
    forall p: Place
      ensures PlainAt(w, target, p) == Recorded(entries + [RotationEntry(head, env)], p)
    {
      RecordedNext(entries, RotationEntry(head, env), p);
    }
  }

  /** Rotation keeps the invariant of the store under the new master, and succeeds. */
  lemma RotationKeepsStore(view: View, head: Head, master: nat, entries: seq<AuditEntry>, target: nat, names: seq<string>, env: Env)
    requires StoreInv(view, master, head, entries) && Lists(names, view, master)
    ensures RotateTo(view, head, master, target, names, env).Success?
    ensures var r := RotateTo(view, head, master, target, names, env).value;
      StoreInv(r.view, target, r.head, entries + [RotationEntry(head, env)]) && SamePlain(view, master, r.view, target)
  {
    hide LogInv, OneMaster, RotateTo, Rotated, TablesInv, AuditInv, SamePlain, Lists;
    StoreParts(view, master, head, entries);
    RotationKeepsInv(view, head, master, entries, target, names, env);
    RotationKeepsLog(view, head, master, entries, target, names, env);
  }

  // ---------------------------------------------------------------- the head commits to the tables

  /** Equal heads: the same history, the same plain tables; and without rotations the same boxes. */
  lemma HeadDeterminesTables(v: View, m: nat, a: seq<AuditEntry>, w: View, n: nat, b: seq<AuditEntry>, head: Head)
    requires LogInv(v, m, head, a) && LogInv(w, n, head, b)
    ensures a == b && SamePlain(v, m, w, n)
    ensures Unrotated(a) ==> TableKeys(v) == TableKeys(w)
  {
    hide AllNamed, TableKeys, Replay, Unrotated, PlainAt, OneMaster;
    HeadDeterminesHistory(a, b);
  }
}
