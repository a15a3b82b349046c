/**
 The store with its transaction overlay and the engine on top of it, as objects whose
 methods change their fields; each method is tied to the functions of the other modules.
 */
module Engine {
  import opened Wrappers
  import opened EngineData
  import Predicates
  import opened Tables
  import opened RowChanges
  import opened RangeBlobs
  import opened Queries
  import opened RowStatements
  import opened DataStatements
  import opened SchemaStatements
  import opened AuditChain
  import opened Database
  import opened PlanKeys
  import opened Rotation
  import Plaintexts
  import opened Transactions

  // ---------------------------------------------------------------- the store

  /** The pairs whose key is wanted. */
  function Wanted(view: View, wanted: Key -> bool): View {
    map k | k in view && wanted(k) :: view[k]
  }

  /** The batch without the keys that are left. */
  function Without(b: Batch, left: set<Key>): Batch {
    map k | k in b && k !in left :: b[k]
  }

  lemma MergedAt(b: Batch, left: set<Key>, view: View, wanted: Key -> bool, k: Key)
    ensures var merged := Wanted(Apply(Without(b, left), view), wanted);
      && (k in merged <==> wanted(k) && if k in b && k !in left then b[k].Some? else k in view)
      && (k in merged ==> merged[k] == if k in b && k !in left then b[k].value else view[k])
  {
    ApplyAt(Without(b, left), view, k);
    hide Apply;
  }

  lemma MergeOne(b: Batch, left: set<Key>, view: View, wanted: Key -> bool, k: Key)
    requires k in left && k in b
    ensures var before, after := Wanted(Apply(Without(b, left), view), wanted), Wanted(Apply(Without(b, left - {k}), view), wanted);
      after == if !wanted(k) then before else if b[k].Some? then before[k := b[k].value] else before - {k}
  {
    hide *;
    var before, after := Wanted(Apply(Without(b, left), view), wanted), Wanted(Apply(Without(b, left - {k}), view), wanted);
    forall x
      ensures x in after <==> if x == k then wanted(k) && b[k].Some? else x in before
      ensures x in after ==> after[x] == if x == k then b[k].value else before[x]
      ensures x == k && x in before ==> wanted(k)
    {
      MergedAt(b, left, view, wanted, x);
      MergedAt(b, left - {k}, view, wanted, x);
    }
  }

  lemma WantedIs(view: View, wanted: Key -> bool, merged: View)
    requires merged == map k | k in view && wanted(k) :: view[k]
    ensures merged == Wanted(view, wanted)
  {
  }

  lemma NothingMerged(b: Batch, view: View)
    ensures Apply(Without(b, b.Keys), view) == view
  {
    assert Without(b, b.Keys) == map[];
    ApplyNothing(view);
  }

  class Store {
    var backend: View
    var overlay: Option<Batch>

    /** What reads see. */
    function Contents(): View
      reads this
    {
      if overlay.Some? then Apply(overlay.value, backend) else backend
    }

    constructor (stored: View)
      ensures backend == stored && overlay == None
    {
      backend := stored;
      overlay := None;
    }

    method Get(at: Key) returns (box: Option<Sealed>)
      ensures box == if at in Contents() then Some(Contents()[at]) else None
    {
      if overlay.Some? && at in overlay.value {
        return overlay.value[at];
      }
      box := if at in backend then Some(backend[at]) else None;
    }

    /** The stored pairs whose key is wanted, with the overlay merged in key by key. */
    method Scan(wanted: Key -> bool) returns (merged: View)
      ensures merged == Wanted(Contents(), wanted)
    {
      hide Apply, Wanted;
      merged := map k | k in backend && wanted(k) :: backend[k];
      WantedIs(backend, wanted, merged);
      if overlay.Some? {
        var b := overlay.value;
        var left := b.Keys;
        NothingMerged(b, backend);
        while left != {}
          invariant left <= b.Keys && merged == Wanted(Apply(Without(b, left), backend), wanted)
          decreases |left|
        {
          var k :| k in left;
          MergeOne(b, left, backend, wanted, k);
          if wanted(k) {
            merged := if b[k].Some? then merged[k := b[k].value] else merged - {k};
          }
          left := left - {k};
        }
        assert Without(b, {}) == b;
      }
    }

    method Commit(b: Batch)
      modifies this
      ensures Contents() == Apply(b, old(Contents()))
      ensures overlay == if old(overlay).Some? then Some(old(overlay).value + b) else None
      ensures backend == if old(overlay).Some? then old(backend) else Apply(b, old(backend))
    {
      if overlay.Some? {
        ApplyTwice(overlay.value, b, backend);
        overlay := Some(overlay.value + b);
      } else {
        backend := Apply(b, backend);
      }
    }

    method Begin()
      modifies this
      ensures overlay == Some(map[]) && backend == old(backend)
    {
      overlay := Some(map[]);
    }

    method CommitTransaction()
      modifies this
      ensures overlay == None && backend == old(Contents())
    {
      if overlay.Some? {
        var b := overlay.value;
        overlay := None;
        if b != map[] {
          backend := Apply(b, backend);
        } else {
          ApplyNothing(backend);
        }
      }
    }

    method Rollback()
      modifies this
      ensures overlay == None && backend == old(backend)
    {
      overlay := None;
    }

    /** Another log takes the place of this one. */
    method Replace(stored: View)
      modifies this
      ensures backend == stored && overlay == None
    {
      backend := stored;
      overlay := None;
    }
  }

  // ---------------------------------------------------------------- the engine

  class Engine {
    var master: nat
    const store: Store
    var auditHead: Head
    var txnAuditHead: Option<Head>

    constructor (m: nat, s: Store, head: Head)
      ensures master == m && store == s && auditHead == head && txnAuditHead == None
    {
      master := m;
      store := s;
      auditHead := head;
      txnAuditHead := None;
    }

    /** The engine as a value. */
    function Value(): State
      reads this, store
    {
      State(store.backend, store.overlay, auditHead, txnAuditHead)
    }

    /** What the engine reads. */
    function Seen(): View
      reads store
    {
      store.Contents()
    }

    method Decrypt(key: CipherKey, at: Key) returns (r: Result<Option<Plain>, Error>)
      ensures r == Tables.Get(Seen(), key, at)
    {
      var box := store.Get(at);
      match box
      case None => r := Success(None);
      case Some(b) =>
        var p := Open(key, b, at);
        r := if p.None? then Failure(CryptoError) else Success(Some(p.value));
    }

    method ReadRow(tag: Tag, id: nat) returns (r: Result<Option<Cells>, Error>)
      ensures r == FetchRow(Seen(), tag, id)
    {
      var p := Decrypt(TableCipher(tag), Row(tag, id));
      match p
      case Failure(e) => r := Failure(e);
      case Success(None) => r := Success(None);
      case Success(Some(RowPlain(cells))) => r := Success(Some(cells));
      case Success(Some(_)) => r := Failure(CorruptError);
    }

    method ReadRows(tag: Tag, ids: seq<nat>) returns (r: Result<seq<Found>, Error>)
      ensures r == FetchAll(Seen(), tag, ids)
    {
      hide FetchRow;
      var found: seq<Found> := [];
      for i := 0 to |ids|
        invariant FetchAll(Seen(), tag, ids[..i]) == Success(found)
      {
        assert ids[..i + 1][..i] == ids[..i];
        var row := ReadRow(tag, ids[i]);
        if row.Failure? {
          FetchFails(Seen(), tag, ids, i + 1);
          return Failure(row.error);
        }
        if row.value.Some? {
          found := found + [Found(ids[i], row.value.value)];
        }
      }
      assert ids[..|ids|] == ids;
      r := Success(found);
    }

    method RowIdList(tag: Tag) returns (ids: seq<nat>)
      ensures ids == Sorted(RowIds(Seen(), tag))
    {
      var rows := store.Scan((k: Key) => k.Row? && k.tag == tag);
      assert RowIds(rows, tag) == RowIds(Seen(), tag);
      ids := Sorted(RowIds(rows, tag));
    }

    /** The row ids under one index value; every marker is checked. */
    method IndexLookup(tag: Tag, c: nat, v: Value) returns (r: Result<seq<nat>, Error>)
      ensures r == IndexRowIds(Seen(), tag, c, v)
    {
      ghost var view := Seen();
      assert view == store.Contents();
      hide *;
      var wanted := (k: Key) => k.Index? && k.tag == tag && k.col == c && k.value == v;
      var entries := store.Scan(wanted);
      SameIds(view, entries, wanted, tag, c, v);
      var ids := Sorted(IndexIds(entries, tag, c, v));
      for i := 0 to |ids|
        invariant forall j :: 0 <= j < i ==> Tables.Get(view, TableCipher(tag), Index(tag, c, v, ids[j])).Success?
      {
        var p := Decrypt(TableCipher(tag), Index(tag, c, v, ids[i]));
        if p.Failure? {
          MarkerFails(view, tag, c, v, ids, i);
          return Failure(CryptoError);
        }
      }
      MarkersOpen(view, tag, c, v, ids);
      r := Success(ids);
    }

    method ReadRange(tag: Tag, c: nat) returns (r: Result<seq<Entry>, Error>)
      ensures r == LoadRange(Seen(), tag, c)
    {
      var p := Decrypt(TableCipher(tag), Range(tag, c));
      match p
      case Failure(e) => r := Failure(e);
      case Success(None) => r := Success([]);
      case Success(Some(RangePlain(entries))) => r := Success(entries);
      case Success(Some(_)) => r := Failure(CorruptError);
    }

    /** The access path: index lookup, range blob, or full scan. */
    method Candidates(tag: Tag, schema: Schema, filter: Option<Predicates.Filter>) returns (r: Result<seq<Found>, Error>)
      ensures r == CandidateRows(Seen(), tag, schema, filter)
    {
      hide IndexRowIds, FetchAll, LoadRange, PickIndex, PickRange, Sorted;
      if filter.Some? {
        var p := PickIndex(filter.value, schema);
        if p.Some? {
          var ids := IndexLookup(tag, p.value.col, p.value.value);
          if ids.Failure? {
            return Failure(ids.error);
          }
          r := ReadRows(tag, ids.value);
          return;
        }
        var q := PickRange(filter.value, schema);
        if q.Some? {
          var entries := ReadRange(tag, q.value.col);
          if entries.Failure? {
            return Failure(entries.error);
          }
          var ids: seq<nat> := [];
          for i := 0 to |entries.value|
            invariant ids == RangeHits(entries.value[..i], q.value.bound)
          {
            assert entries.value[..i + 1][..i] == entries.value[..i];
            if Predicates.Holds(q.value.bound.op, Predicates.Compare(entries.value[i].value, q.value.bound.value)) {
              ids := ids + [entries.value[i].id];
            }
          }
          assert entries.value[..|entries.value|] == entries.value;
          r := ReadRows(tag, ids);
          return;
        }
      }
      var ids := RowIdList(tag);
      r := ReadRows(tag, ids);
    }

    /** The rows a statement works on. */
    method FindRows(tag: Tag, schema: Schema, filter: Option<Predicates.Filter>) returns (r: Result<seq<Found>, Error>)
      ensures r == MatchingRows(Seen(), tag, schema, filter)
    {
      hide CandidateRows, RowMatches;
      var found := Candidates(tag, schema, filter);
      if found.Failure? {
        return Failure(found.error);
      }
      var kept: seq<Found> := [];
      for i := 0 to |found.value|
        invariant Select(found.value[..i], filter) == Success(kept)
      {
        assert found.value[..i + 1][..i] == found.value[..i];
        var m := RowMatches(filter, found.value[i].cells);
        if m.Failure? {
          SelectFails(found.value, filter, i + 1);
          return Failure(m.error);
        }
        if m.value {
          kept := kept + [found.value[i]];
        }
      }
      assert found.value[..|found.value|] == found.value;
      r := Success(kept);
    }

    /** The chain of the listed entries, checked link by link. */
    method ScanEntries(numbers: seq<nat>) returns (r: Result<Chain, Error>)
      ensures r == ScanChain(Seen(), master, numbers)
    {
      hide *;
      ghost var view := Seen();
      var chain := Chain([], Zeros);
      NothingScanned(view, master, numbers);
      for i := 0 to |numbers|
        invariant ScanChain(view, master, numbers[..i]) == Success(chain)
      {
        ScanNext(view, master, numbers, i, chain);
        var next := Extend(Seen(), master, chain, numbers[i]);
        if next.Failure? {
          ScanFails(view, master, numbers, i + 1);
          return Failure(next.error);
        }
        chain := next.value;
      }
      assert numbers[..|numbers|] == numbers;
      r := Success(chain);
    }

    /** The audit chain recomputed from genesis. */
    method AuditVerify() returns (r: Result<seq<AuditEntry>, Error>)
      ensures r == Verify(Seen(), master, auditHead)
    {
      assert Seen() == store.Contents();
      hide *;
      var log := store.Scan(IsAuditKey);
      SameNumbers(Seen(), log);
      var numbers := Sorted(AuditNumbers(log));
      VerifyOf(Seen(), master, auditHead, numbers);
      var chain := ScanEntries(numbers);
      match chain
      case Failure(e) => r := Failure(e);
      case Success(c) => r := if Head(|c.entries|, c.root) == auditHead then Success(c.entries) else Failure(AuditError);
    }

    /** The row checked against the index and the rows before it in the statement. */
    method PrimaryCheck(tag: Tag, schema: Schema, earlier: seq<Cells>, row: Cells) returns (r: Result<bool, Error>)
      requires Predicates.Typed(row, schema)
      ensures r == CheckPrimary(Seen(), tag, schema, earlier, row)
    {
      hide IndexRowIds;
      var pk := PrimaryColumn(schema);
      if pk.None? {
        return Success(true);
      }
      var c := pk.value;
      if row[c] == Null {
        return Failure(ConstraintError);
      }
      if DataStatements.Holds(earlier, c, row[c]) {
        return Failure(ConstraintError);
      }
      var ids := IndexLookup(tag, c, row[c]);
      match ids
      case Failure(e) => r := Failure(e);
      case Success(s) => r := if s != [] then Failure(ConstraintError) else Success(true);
    }

    /** The validation loop of INSERT: nothing is written before every row has passed. */
    method PrepareAll(tag: Tag, schema: Schema, positions: seq<nat>, rows: seq<Cells>) returns (r: Result<seq<Cells>, Error>)
      requires forall i :: 0 <= i < |positions| ==> positions[i] < |schema.columns|
      ensures r == PrepareRows(Seen(), tag, schema, positions, rows, |rows|)
    {
      hide CheckPrimary, FillRow;
      var prepared: seq<Cells> := [];
      for i := 0 to |rows|
        invariant PrepareRows(Seen(), tag, schema, positions, rows, i) == Success(prepared)
      {
        if |rows[i]| != |positions| {
          PrepareFails(Seen(), tag, schema, positions, rows, i + 1);
          return Failure(TypeError);
        }
        var row := FillRow(schema, positions, rows[i], |positions|);
        if row.Failure? {
          PrepareFails(Seen(), tag, schema, positions, rows, i + 1);
          return Failure(row.error);
        }
        var ok := PrimaryCheck(tag, schema, prepared, row.value);
        if ok.Failure? {
          PrepareFails(Seen(), tag, schema, positions, rows, i + 1);
          return Failure(ok.error);
        }
        prepared := prepared + [row.value];
      }
      r := Success(prepared);
    }

    /** The row and index writes of all changed rows. */
    method WriteChanges(tag: Tag, changes: seq<Change>, cols: seq<nat>, nonces: Nonces) returns (b: Batch)
      ensures b == ChangesWrites(tag, changes, cols, nonces)
    {
      b := map[];
      for i := 0 to |changes|
        invariant b == ChangesWrites(tag, changes[..i], cols, nonces)
      {
        assert changes[..i + 1][..i] == changes[..i];
        var one := WriteChange(tag, changes[i], cols, nonces);
        b := b + one;
      }
      assert changes[..|changes|] == changes;
    }

    /** One changed row: its index entries column by column, then the row. */
    method WriteChange(tag: Tag, ch: Change, cols: seq<nat>, nonces: Nonces) returns (b: Batch)
      ensures b == ChangeWrites(tag, ch, cols, nonces)
    {
      b := map[];
      for i := 0 to |cols|
        invariant b == IndexWrites(tag, ch, cols[..i], nonces)
      {
        assert cols[..i + 1][..i] == cols[..i];
        var c := cols[i];
        var o, v := CellOf(ch.before, c), CellOf(ch.after, c);
        if !Predicates.SameValue(o, v) {
          if o != Null {
            b := b[Index(tag, c, o, ch.id) := None];
          }
          if v != Null {
            b := PutMarker(b, tag, c, v, ch.id, nonces);
          }
        }
      }
      assert cols[..|cols|] == cols;
      b := b[Row(tag, ch.id) := RowWrite(tag, ch, nonces)];
    }

    /** The range blobs that must be rewritten. */
    method WriteRanges(tag: Tag, mode: Mode, changes: seq<Change>, cols: seq<nat>, nonces: Nonces) returns (r: Result<Batch, Error>)
      ensures r == RangeWrites(Seen(), tag, mode, changes, cols, nonces)
    {
      hide LoadRange, LeavesBlob, NewBlob;
      var b: Batch := map[];
      for i := 0 to |cols|
        invariant RangeWrites(Seen(), tag, mode, changes, cols[..i], nonces) == Success(b)
      {
        assert cols[..i + 1][..i] == cols[..i];
        if !LeavesBlob(mode, changes, cols[i]) {
          var s := ReadRange(tag, cols[i]);
          if s.Failure? {
            RangesFail(Seen(), tag, mode, changes, cols, nonces, i + 1);
            return Failure(s.error);
          }
          var blob := FollowChanges(mode, s.value, changes, cols[i]);
          b := PutBlob(b, tag, cols[i], blob, nonces);
        }
      }
      assert cols[..|cols|] == cols;
      r := Success(b);
    }

    /** The blob of one column after all changes: entries dropped and pushed row by row, then sorted. */
    method FollowChanges(mode: Mode, s: seq<Entry>, changes: seq<Change>, c: nat) returns (blob: seq<Entry>)
      ensures blob == NewBlob(mode, s, changes, c)
    {
      hide SortEntries;
      blob := s;
      for i := 0 to |changes|
        invariant blob == EntryChanges(s, changes[..i], c)
      {
        assert changes[..i + 1][..i] == changes[..i];
        var ch := changes[i];
        var o, v := CellOf(ch.before, c), CellOf(ch.after, c);
        if !(ch.after.Some? && Predicates.SameValue(o, v)) {
          if ch.before.Some? {
            blob := DropEntry(blob, ch.id, o);
          }
          if v != Null {
            blob := blob + [Entry(v, ch.id)];
          }
        }
      }
      assert changes[..|changes|] == changes;
      if mode != Deleting {
        blob := SortEntries(blob);
      }
    }

    method DropEntry(s: seq<Entry>, id: nat, v: Value) returns (kept: seq<Entry>)
      ensures kept == Retain(s, id, v)
    {
      kept := [];
      for i := 0 to |s|
        invariant kept == Retain(s[..i], id, v)
      {
        assert s[..i + 1][..i] == s[..i];
        if !(s[i].id == id && Predicates.SameValue(s[i].value, v)) {
          kept := kept + [s[i]];
        }
      }
      assert s[..|s|] == s;
    }

    method ReadSchema(tag: Tag) returns (r: Result<Schema, Error>)
      ensures r == ExpectSchema(Seen(), tag)
    {
      var p := Decrypt(CatalogCipher(tag.master), Catalog(tag));
      match p
      case Failure(e) => r := Failure(e);
      case Success(None) => r := Failure(SchemaError);
      case Success(Some(SchemaPlain(s))) => r := Success(s);
      case Success(Some(_)) => r := Failure(CorruptError);
    }

    method ReadSequence(tag: Tag) returns (r: Result<nat, Error>)
      ensures r == LoadSequence(Seen(), tag)
    {
      var p := Decrypt(TableCipher(tag), Sequence(tag));
      match p
      case Failure(e) => r := Failure(e);
      case Success(None) => r := Success(0);
      case Success(Some(SequencePlain(n))) => r := Success(n);
      case Success(Some(_)) => r := Failure(CorruptError);
    }

    method PlanInsert(tag: Tag, names: Option<seq<string>>, rows: seq<Cells>, nonces: Nonces) returns (r: Result<Plan, Error>)
      ensures r == InsertPlan(Seen(), tag, names, rows, nonces)
    {
      hide ExpectSchema, Positions, PrepareRows, LoadSequence, RangeWrites, ChangesWrites, PutSequence;
      var schema := ReadSchema(tag);
      if schema.Failure? {
        return Failure(schema.error);
      }
      var positions := Positions(schema.value, names);
      if positions.Failure? {
        return Failure(positions.error);
      }
      var prepared := PrepareAll(tag, schema.value, positions.value, rows);
      if prepared.Failure? {
        return Failure(prepared.error);
      }
      var next := ReadSequence(tag);
      if next.Failure? {
        return Failure(next.error);
      }
      var changes := Insertions(next.value, prepared.value);
      var base := WriteChanges(tag, changes, MaintainedColumns(schema.value), nonces);
      var ranges := WriteRanges(tag, Inserting, changes, RangedColumns(schema.value), nonces);
      if ranges.Failure? {
        return Failure(ranges.error);
      }
      r := Success(Plan(|rows|, base + PutSequence(map[], tag, next.value + |rows|, nonces) + ranges.value));
    }

    method PrimaryUpdateCheck(tag: Tag, schema: Schema, targets: seq<Target>, found: seq<Found>) returns (r: Result<bool, Error>)
      ensures r == CheckNewPrimary(Seen(), tag, schema, targets, found)
    {
      hide IndexRowIds;
      var t := NewPrimary(schema, targets);
      if t.None? {
        return Success(true);
      }
      if t.value.value == Null || |found| > 1 {
        return Failure(ConstraintError);
      }
      if found == [] {
        return Success(true);
      }
      var ids := IndexLookup(tag, t.value.col, t.value.value);
      match ids
      case Failure(e) => r := Failure(e);
      case Success(s) => r := if OnlyHolder(s, found[0].id) then Success(true) else Failure(ConstraintError);
    }

    method PlanUpdate(tag: Tag, assignments: seq<Assignment>, where: Option<Expr>, nonces: Nonces) returns (r: Result<Plan, Error>)
      ensures r == UpdatePlan(Seen(), tag, assignments, where, nonces)
    {
      hide ExpectSchema, CompileOption, ResolveTargets, MatchingRows, CheckNewPrimary, RangeWrites, ChangesWrites, Fetched, Updates;
      var schema := ReadSchema(tag);
      if schema.Failure? {
        return Failure(schema.error);
      }
      var filter := CompileOption(schema.value, where);
      if filter.Failure? {
        return Failure(filter.error);
      }
      var targets := ResolveTargets(schema.value, assignments, |assignments|);
      if targets.Failure? {
        return Failure(targets.error);
      }
      var found := FindRows(tag, schema.value, filter.value);
      if found.Failure? {
        return Failure(found.error);
      }
      if !Fetched(found.value, targets.value) {
        return Failure(CorruptError);
      }
      var ok := PrimaryUpdateCheck(tag, schema.value, targets.value, found.value);
      if ok.Failure? {
        return Failure(ok.error);
      }
      var changes := Updates(found.value, targets.value);
      var base := WriteChanges(tag, changes, MaintainedColumns(schema.value), nonces);
      var ranges := WriteRanges(tag, Updating, changes, RangedColumns(schema.value), nonces);
      if ranges.Failure? {
        return Failure(ranges.error);
      }
      r := Success(Plan(|found.value|, base + ranges.value));
    }

    method PlanDelete(tag: Tag, where: Option<Expr>, nonces: Nonces) returns (r: Result<Plan, Error>)
      ensures r == DeletePlan(Seen(), tag, where, nonces)
    {
      hide ExpectSchema, CompileOption, MatchingRows, RangeWrites, ChangesWrites, Deletions;
      var schema := ReadSchema(tag);
      if schema.Failure? {
        return Failure(schema.error);
      }
      var filter := CompileOption(schema.value, where);
      if filter.Failure? {
        return Failure(filter.error);
      }
      var found := FindRows(tag, schema.value, filter.value);
      if found.Failure? {
        return Failure(found.error);
      }
      var changes := Deletions(found.value);
      var base := WriteChanges(tag, changes, MaintainedColumns(schema.value), nonces);
      var ranges := WriteRanges(tag, Deleting, changes, RangedColumns(schema.value), nonces);
      if ranges.Failure? {
        return Failure(ranges.error);
      }
      r := Success(Plan(|found.value|, base + ranges.value));
    }

    /** CREATE INDEX: one entry for every existing row. */
    method PlanCreateIndex(tag: Tag, column: string, nonces: Nonces) returns (r: Result<Plan, Error>)
      ensures r == CreateIndexPlan(Seen(), tag, column, nonces)
    {
      hide ExpectSchema, FetchAll, Sorted, SetIndexed, PutSchema, PutMarker;
      var schema := ReadSchema(tag);
      if schema.Failure? {
        return Failure(schema.error);
      }
      var c := Predicates.Resolve(schema.value, column);
      if c.Failure? {
        return Failure(c.error);
      }
      if schema.value.columns[c.value].primaryKey || schema.value.columns[c.value].indexed {
        return Failure(SchemaError);
      }
      var ids := RowIdList(tag);
      var found := ReadRows(tag, ids);
      if found.Failure? {
        return Failure(found.error);
      }
      var b: Batch := map[];
      for i := 0 to |found.value|
        invariant b == Backfill(tag, c.value, found.value[..i], nonces)
      {
        assert found.value[..i + 1][..i] == found.value[..i];
        var row := found.value[i];
        if c.value < |row.cells| && row.cells[c.value] != Null {
          b := PutMarker(b, tag, c.value, row.cells[c.value], row.id, nonces);
        }
      }
      assert found.value[..|found.value|] == found.value;
      r := Success(Plan(0, PutSchema(b, tag, SetIndexed(schema.value, c.value, true), nonces)));
    }

    /** CREATE RANGE INDEX: the sorted blob of every existing row. */
    method PlanCreateRange(tag: Tag, column: string, nonces: Nonces) returns (r: Result<Plan, Error>)
      ensures r == CreateRangePlan(Seen(), tag, column, nonces)
    {
      hide ExpectSchema, FetchAll, Sorted, SetRanged, PutSchema, PutBlob, SortEntries;
      var schema := ReadSchema(tag);
      if schema.Failure? {
        return Failure(schema.error);
      }
      var c := Predicates.Resolve(schema.value, column);
      if c.Failure? {
        return Failure(c.error);
      }
      if schema.value.columns[c.value].rangeIndexed {
        return Failure(SchemaError);
      }
      var ids := RowIdList(tag);
      var found := ReadRows(tag, ids);
      if found.Failure? {
        return Failure(found.error);
      }
      var entries: seq<Entry> := [];
      for i := 0 to |found.value|
        invariant entries == EntriesOf(found.value[..i], c.value)
      {
        assert found.value[..i + 1][..i] == found.value[..i];
        var row := found.value[i];
        if c.value < |row.cells| && row.cells[c.value] != Null {
          entries := entries + [Entry(row.cells[c.value], row.id)];
        }
      }
      assert found.value[..|found.value|] == found.value;
      r := Success(Plan(0, PutSchema(PutBlob(map[], tag, c.value, SortEntries(entries), nonces), tag,
                                     SetRanged(schema.value, c.value, true), nonces)));
    }

    /** The plan of any statement that writes. */
    method PlanStatement(s: Statement, nonces: Nonces) returns (r: Result<Plan, Error>)
      requires !IsControl(s) && !s.SelectStmt?
      ensures r == PlanOf(Seen(), master, nonces, s)
    {
      hide CreateTablePlan, DropTablePlan, CreateRangePlan, CreateIndexPlan, DropRangePlan, DropIndexPlan, InsertPlan, UpdatePlan, DeletePlan;
      var tag := Tag(master, s.table);
      match s
      case InsertStmt(_, columns, rows) => r := PlanInsert(tag, columns, rows, nonces);
      case UpdateStmt(_, assignments, where) => r := PlanUpdate(tag, assignments, where, nonces);
      case DeleteStmt(_, where) => r := PlanDelete(tag, where, nonces);
      case CreateIndexStmt(_, column, range) =>
        if range {
          r := PlanCreateRange(tag, column, nonces);
        } else {
          r := PlanCreateIndex(tag, column, nonces);
        }
      case _ => r := PlanOf(Seen(), master, nonces, s);
    }

    method RunQuery(table: string, columns: Option<seq<string>>, where: Option<Expr>) returns (r: Result<seq<Cells>, Error>)
      ensures r == Query(Seen(), master, table, columns, where)
    {
      hide ExpectSchema, CompileOption, MatchingRows, Positions, Project;
      var tag := Tag(master, table);
      var schema := ReadSchema(tag);
      if schema.Failure? {
        return Failure(schema.error);
      }
      var filter := CompileOption(schema.value, where);
      if filter.Failure? {
        return Failure(filter.error);
      }
      var cols := Positions(schema.value, columns);
      if cols.Failure? {
        return Failure(cols.error);
      }
      var found := FindRows(tag, schema.value, filter.value);
      if found.Failure? {
        return Failure(found.error);
      }
      if !Projects(found.value, cols.value) {
        return Failure(CorruptError);
      }
      r := Success(seq(|found.value|, i requires 0 <= i < |found.value| => Project(found.value[i].cells, cols.value)));
    }

    /** One statement: the answer and the new state of the engine. */
    method Execute(s: Statement, env: Env) returns (r: Result<Outcome, Error>)
      modifies this, store
      ensures master == old(master) && r == ResultOf(old(Value()), master, env, s)
      ensures Value() == StateAfter(old(Value()), master, env, s)
    {
      hide PlanOf, Query, Audited, Apply;
      match s
      case BeginStmt =>
        if store.overlay.Some? {
          return Failure(SchemaError);
        }
        txnAuditHead := Some(auditHead);
        store.Begin();
        r := Success(Begun);
      case CommitStmt =>
        if store.overlay.None? {
          return Failure(SchemaError);
        }
        store.CommitTransaction();
        txnAuditHead := None;
        r := Success(Committed);
      case RollbackStmt =>
        if store.overlay.None? {
          return Failure(SchemaError);
        }
        store.Rollback();
        if txnAuditHead.Some? {
          auditHead := txnAuditHead.value;
        }
        txnAuditHead := None;
        r := Success(RolledBack);
      case SelectStmt(table, columns, where) =>
        var rows := RunQuery(table, columns, where);
        NoWrites(Value(), auditHead);
        r := if rows.Failure? then Failure(rows.error) else Success(Rows(rows.value));
      case _ =>
        var plan := PlanStatement(s, env.nonces);
        if plan.Failure? {
          NoWrites(Value(), auditHead);
          return Failure(plan.error);
        }
        CommitAudited(KindOf(s), Tag(master, s.table), plan.value.writes, env);
        r := Success(Changed(plan.value.count));
    }

    /** Commit a statement's writes together with its audit entry. */
    method CommitAudited(kind: Kind, tag: Tag, writes: Batch, env: Env)
      modifies this, store
      ensures master == old(master)
      ensures Value() == Write(old(Value()), Audited(old(auditHead), master, env, kind, Some(tag), writes))
    {
      hide WithAudit, Apply;
      if writes == map[] {
        ApplyNothing(store.backend);
        NoWrites(Value(), auditHead);
        return;
      }
      CommitWithAudit(kind, Some(tag), WritesOf(writes), writes, env);
    }

    method CommitWithAudit(kind: Kind, table: Option<Tag>, digest: Digest, writes: Batch, env: Env)
      modifies this, store
      ensures master == old(master)
      ensures Value() == Write(old(Value()), WithAudit(old(auditHead), master, env, kind, table, digest, writes))
    {
      hide Apply;
      var c := WithAudit(auditHead, master, env, kind, table, digest, writes);
      store.Commit(c.writes);
      auditHead := c.head;
    }

    /** Closing and opening again: what was buffered is lost, the head is read back. */
    method Reopen() returns (r: Result<Head, Error>)
      modifies this, store
      ensures master == old(master) && r == StoredHead(old(store.backend), master)
      ensures Value() == Reopened(old(Value()), master)
    {
      store.Rollback();
      var p := Decrypt(AuditCipher(master), AuditHead);
      match p {
        case Failure(e) => r := Failure(e);
        case Success(None) => r := Success(GENESIS);
        case Success(Some(HeadPlain(h))) => r := Success(h);
        case Success(Some(_)) => r := Failure(CorruptError);
      }
      auditHead := if r.Success? then r.value else GENESIS;
      txnAuditHead := None;
    }

    /** The table names in the sealed catalog, each once; the rebuilt store does not depend on their order. */
    method ListTables() returns (r: Result<seq<string>, Error>)
      ensures TableNames(Seen(), master).Failure? ==> r.Failure? && r.error == TableNames(Seen(), master).error
      ensures TableNames(Seen(), master).Success? ==> r.Success? && Enumerates(r.value, TableNames(Seen(), master).value)
    {
      var catalog := store.Scan(IsCatalogKey);
      SameCatalog(Seen(), catalog, master);
      var names := TableNames(catalog, master);
      if names.Failure? {
        return Failure(names.error);
      }
      var left, list := names.value, [];
      while left != {}
        invariant left <= names.value && Enumerates(list, names.value - left)
        decreases |left|
      {
        var t :| t in left;
        list := list + [t];
        left := left - {t};
      }
      assert names.value - {} == names.value;
      r := Success(list);
    }

    method TakeSnapshot(tag: Tag) returns (r: Result<Snapshot, Error>)
      ensures r == SnapshotOf(Seen(), tag)
    {
      hide ExpectSchema, LoadSequence, FetchAll, Sorted;
      var schema := ReadSchema(tag);
      if schema.Failure? {
        return Failure(schema.error);
      }
      var next := ReadSequence(tag);
      if next.Failure? {
        return Failure(next.error);
      }
      var ids := RowIdList(tag);
      var rows := ReadRows(tag, ids);
      if rows.Failure? {
        return Failure(rows.error);
      }
      r := Success(Snapshot(schema.value, next.value, rows.value));
    }

    /** All tables through the current master, before anything is rebuilt. */
    method TakeSnapshots(names: seq<string>) returns (r: Result<seq<Snapshot>, Error>)
      ensures r == Snapshots(Seen(), master, names)
    {
      hide SnapshotOf;
      var taken: seq<Snapshot> := [];
      for i := 0 to |names|
        invariant Snapshots(Seen(), master, names[..i]) == Success(taken)
      {
        assert names[..i + 1][..i] == names[..i];
        var s := TakeSnapshot(Tag(master, names[i]));
        if s.Failure? {
          SnapshotsFail(Seen(), master, names, i + 1);
          return Failure(s.error);
        }
        taken := taken + [s.value];
      }
      assert names[..|names|] == names;
      r := Success(taken);
    }

    /** One batch for one table: schema, sequence, rows with their index entries, sorted blobs. */
    method BuildTable(tag: Tag, s: Snapshot, nonces: Nonces) returns (b: Batch)
      ensures b == Rebuild(tag, s, nonces)
    {
      hide ChangesWrites, SortEntries, PutSchema, PutSequence, PutBlob;
      var base := WriteChanges(tag, AsInsertions(s.rows), MaintainedColumns(s.schema), nonces);
      var cols := RangedColumns(s.schema);
      var blobs: Batch := map[];
      for i := 0 to |cols|
        invariant blobs == BlobWrites(tag, s.rows, cols[..i], nonces)
      {
        assert cols[..i + 1][..i] == cols[..i];
        var entries := Collect(s.rows, cols[i]);
        blobs := PutBlob(blobs, tag, cols[i], SortEntries(entries), nonces);
      }
      assert cols[..|cols|] == cols;
      b := base + PutSchema(PutSequence(blobs, tag, s.next, nonces), tag, s.schema, nonces);
    }

    /** The cells of one column that are not NULL. */
    method Collect(rows: seq<Found>, c: nat) returns (entries: seq<Entry>)
      ensures entries == EntriesOf(rows, c)
    {
      entries := [];
      for i := 0 to |rows|
        invariant entries == EntriesOf(rows[..i], c)
      {
        assert rows[..i + 1][..i] == rows[..i];
        if c < |rows[i].cells| && rows[i].cells[c] != Null {
          entries := entries + [Entry(rows[i].cells[c], rows[i].id)];
        }
      }
      assert rows[..|rows|] == rows;
    }

    /** The scratch store under the new master, one commit per table. */
    method BuildScratch(taken: seq<Snapshot>, target: nat, nonces: Nonces) returns (scratch: Store)
      ensures fresh(scratch) && scratch.overlay == None && scratch.backend == Assembled(taken, target, nonces)
    {
      hide Rebuild, Apply;
      scratch := new Store(map[]);
      for i := 0 to |taken|
        invariant fresh(scratch) && scratch.overlay == None && scratch.backend == Assembled(taken[..i], target, nonces)
      {
        assert taken[..i + 1][..i] == taken[..i];
        var b := BuildTable(Tag(target, taken[i].schema.name), taken[i], nonces);
        scratch.Commit(b);
      }
      assert taken[..|taken|] == taken;
    }

    /**
     Key rotation: snapshot, rebuild in a scratch store under the new master, carry the audit
     entries over, record the rotation, swap the stores and open the new one.
     */
    method Rotate(target: nat, env: Env) returns (r: Result<bool, Error>, ghost names: seq<string>)
      modifies this, store
      ensures var listed := TableNames(old(Seen()), old(master));
        if listed.Failure? then r == Failure(listed.error) && master == old(master) && Value() == old(Value())
        else Enumerates(names, listed.value) && match StateTurned(old(Value()), old(master), target, names, env)
          case Failure(e) => r == Failure(e) && master == old(master) && Value() == old(Value())
          case Success(st) => r == Success(true) && master == target && Value() == st
    {
      ghost var st, view := Value(), Seen();
      SeenIs(this);
      assert view == store.Contents();
      hide *;
      var list := ListTables();
      if list.Failure? {
        return Failure(list.error), [];
      }
      names := list.value;
      var taken := TakeSnapshots(list.value);
      AssembledIs(view, master, target, list.value, env.nonces);
      if taken.Failure? {
        TurnFails(st, master, target, list.value, env);
        return Failure(taken.error), list.value;
      }
      var scratch := BuildScratch(taken.value, target, env.nonces);
      var log := store.Scan(IsAuditKey);
      SameAudit(view, log, master, target, env.nonces);
      var audit := CarriedAudit(log, master, target, env.nonces);
      if audit.Failure? {
        TurnFails(st, master, target, list.value, env);
        return Failure(audit.error), list.value;
      }
      scratch.Commit(audit.value);
      var rotated := new Engine(target, scratch, auditHead);
      ValueIs(rotated);
      rotated.CommitWithAudit(EngineData.Rotate, None, Zeros, map[], env);
      ValueIs(rotated);
      TurnSucceeds(st, master, target, list.value, env, Assembled(taken.value, target, env.nonces), audit.value);
      store.Replace(scratch.backend);
      master := target;
      auditHead := rotated.auditHead;
      txnAuditHead := None;
      ValueIs(this);
      r := Success(true);
    }
  }

  lemma SeenIs(e: Engine)
    ensures e.Seen() == Merged(e.Value()) && e.Value().head == e.auditHead
  {
  }

  lemma ValueIs(e: Engine)
    ensures e.Value() == State(e.store.backend, e.store.overlay, e.auditHead, e.txnAuditHead)
  {
  }

  predicate IsCatalogKey(k: Key) {
    k.Catalog?
  }

  /** A list of all members of the set, each once. */
  ghost predicate Enumerates(list: seq<string>, names: set<string>) {
    && (forall t :: t in list <==> t in names)
    && forall i, j :: 0 <= i < j < |list| ==> list[i] != list[j]
  }

  lemma SameCatalog(view: View, catalog: View, master: nat)
    requires catalog == Wanted(view, IsCatalogKey)
    ensures TableNames(catalog, master) == TableNames(view, master)
  {
    forall k: Key | k.Catalog?
      ensures (k in view <==> k in catalog) && (k in view ==> view[k] == catalog[k])
      ensures CatalogReads(view, master, k) <==> CatalogReads(catalog, master, k)
    {
    }
    assert (set k | k in view.Keys && k.Catalog? && view[k].plain.SchemaPlain? :: view[k].plain.schema.name)
        == (set k | k in catalog.Keys && k.Catalog? && catalog[k].plain.SchemaPlain? :: catalog[k].plain.schema.name);
  }

  lemma SameAudit(view: View, log: View, master: nat, target: nat, nonces: Nonces)
    requires log == Wanted(view, IsAuditKey)
    ensures CarriedAudit(log, master, target, nonces) == CarriedAudit(view, master, target, nonces)
  {
    forall k: Key | k.Audit?
      ensures AuditReads(view, master, k) <==> AuditReads(log, master, k)
    {
    }
    if CarriedAudit(view, master, target, nonces).Success? {
      assert CarriedAudit(log, master, target, nonces).value == CarriedAudit(view, master, target, nonces).value;
    }
  }

  function Snapshots(view: View, master: nat, names: seq<string>): Result<seq<Snapshot>, Error> {
    if names == [] then Success([])
    else
      var n := |names| - 1;
      var before :- Snapshots(view, master, names[..n]);
      var s :- SnapshotOf(view, Tag(master, names[n]));
      Success(before + [s])
  }

  function Assembled(taken: seq<Snapshot>, target: nat, nonces: Nonces): View {
    if taken == [] then map[]
    else
      var n := |taken| - 1;
      Apply(Rebuild(Tag(target, taken[n].schema.name), taken[n], nonces), Assembled(taken[..n], target, nonces))
  }

  lemma {:induction false} SnapshotsFail(view: View, master: nat, names: seq<string>, n: nat)
    requires n <= |names| && Snapshots(view, master, names[..n]).Failure?
    ensures Snapshots(view, master, names) == Snapshots(view, master, names[..n])
    decreases |names| - n
  {
    hide SnapshotOf;
    if n == |names| {
      assert names[..n] == names;
    } else {
      assert names[..n + 1][..n] == names[..n];
      SnapshotsFail(view, master, names, n + 1);
    }
  }

  /** Reading every table first and then building them is the same as table by table. */
  lemma {:induction false} AssembledIs(view: View, master: nat, target: nat, names: seq<string>, nonces: Nonces)
    ensures Rebuilt(view, master, target, names, nonces) == match Snapshots(view, master, names)
      case Failure(e) => Failure(e)
      case Success(taken) => Success(Assembled(taken, target, nonces))
  {
    hide SnapshotOf, Rebuild, Apply;
    if names != [] {
      var n := |names| - 1;
      AssembledIs(view, master, target, names[..n], nonces);
      var before := Snapshots(view, master, names[..n]);
      if before.Success? && SnapshotOf(view, Tag(master, names[n])).Success? {
        var s := SnapshotOf(view, Tag(master, names[n])).value;
        assert (before.value + [s])[..n] == before.value by {
          SnapshotsLength(view, master, names[..n]);
        }
        SnapshotsLength(view, master, names[..n]);
      }
    }
  }

  lemma {:induction false} SnapshotsLength(view: View, master: nat, names: seq<string>)
    requires Snapshots(view, master, names).Success?
    ensures |Snapshots(view, master, names).value| == |names|
  {
    hide SnapshotOf;
    if names != [] {
      SnapshotsLength(view, master, names[..|names| - 1]);
    }
  }

  lemma TurnFails(st: State, master: nat, target: nat, names: seq<string>, env: Env)
    requires TableNames(Merged(st), master).Success?
    ensures var tables, audit := Rebuilt(Merged(st), master, target, names, env.nonces), CarriedAudit(Merged(st), master, target, env.nonces);
      && (tables.Failure? ==> StateTurned(st, master, target, names, env) == Failure(tables.error))
      && (tables.Success? && audit.Failure? ==> StateTurned(st, master, target, names, env) == Failure(audit.error))
  {
    hide TableNames, Rebuilt, CarriedAudit, Merged;
  }

  lemma TurnSucceeds(st: State, master: nat, target: nat, names: seq<string>, env: Env, tables: View, audit: Batch)
    requires TableNames(Merged(st), master).Success? && Rebuilt(Merged(st), master, target, names, env.nonces) == Success(tables)
    requires CarriedAudit(Merged(st), master, target, env.nonces) == Success(audit)
    ensures var w := Write(State(Apply(audit, tables), None, st.head, None), WithAudit(st.head, target, env, EngineData.Rotate, None, Zeros, map[]));
      StateTurned(st, master, target, names, env) == Success(State(w.backend, None, w.head, None))
  {
    hide TableNames, Rebuilt, CarriedAudit, Merged, Apply;
    var c := WithAudit(st.head, target, env, EngineData.Rotate, None, Zeros, map[]);
    ApplyAt(c.writes, Apply(audit, tables), AuditHead);
  }

  /**
   What the engine's rotation does is an action of the transition system, in every reachable
   world; in a sound one it succeeds.
   */
  lemma RotateIsAction(w: World, target: nat, names: seq<string>, env: Env)
    requires WorldLog(w)
    requires TableNames(Merged(w.st), w.master).Success? ==> Enumerates(names, TableNames(Merged(w.st), w.master).value)
    ensures var turned := StateTurned(w.st, w.master, target, names, env);
      && Act(w, RotateKeys(target, names, env)).st == (if turned.Success? then turned.value else w.st)
      && (WorldInv(w) ==> turned.Success?)
  {
    hide Plaintexts.LogInv, Merged, TableNames, TablesInv, OneMaster, RotateTo, AllNamed;
    Plaintexts.LogParts(Merged(w.st), w.master, w.st.head, w.seen);
    NamesRead(Merged(w.st), w.master);
    if WorldInv(w) {
      SeenStore(w);
      Plaintexts.RotationKeepsStore(Merged(w.st), w.st.head, w.master, w.seen, target, names, env);
    }
  }

  lemma SameIds(view: View, entries: View, wanted: Key -> bool, tag: Tag, c: nat, v: Value)
    requires entries == Wanted(view, wanted)
    requires forall k :: wanted(k) <==> k.Index? && k.tag == tag && k.col == c && k.value == v
    ensures IndexIds(entries, tag, c, v) == IndexIds(view, tag, c, v)
  {
  }

  lemma MarkerFails(view: View, tag: Tag, c: nat, v: Value, ids: seq<nat>, i: nat)
    requires ids == Sorted(IndexIds(view, tag, c, v)) && i < |ids|
    requires Tables.Get(view, TableCipher(tag), Index(tag, c, v, ids[i])).Failure?
    ensures IndexRowIds(view, tag, c, v) == Failure(CryptoError)
  {
    assert ids[i] in ids;
  }

  lemma MarkersOpen(view: View, tag: Tag, c: nat, v: Value, ids: seq<nat>)
    requires ids == Sorted(IndexIds(view, tag, c, v))
    requires forall j :: 0 <= j < |ids| ==> Tables.Get(view, TableCipher(tag), Index(tag, c, v, ids[j])).Success?
    ensures IndexRowIds(view, tag, c, v) == Success(ids)
  {
    hide Tables.Get;
    forall id | id in ids
      ensures Tables.Get(view, TableCipher(tag), Index(tag, c, v, id)).Success?
    {
      var j :| 0 <= j < |ids| && ids[j] == id;
    }
  }

  predicate IsAuditKey(k: Key) {
    k.Audit?
  }

  lemma SameNumbers(view: View, log: View)
    requires log == Wanted(view, IsAuditKey)
    ensures AuditNumbers(log) == AuditNumbers(view)
  {
  }

  lemma NothingScanned(view: View, master: nat, numbers: seq<nat>)
    ensures ScanChain(view, master, numbers[..0]) == Success(Chain([], Zeros))
  {
  }

  lemma ScanNext(view: View, master: nat, numbers: seq<nat>, i: nat, chain: Chain)
    requires i < |numbers| && ScanChain(view, master, numbers[..i]) == Success(chain)
    ensures ScanChain(view, master, numbers[..i + 1]) == Extend(view, master, chain, numbers[i])
  {
    assert numbers[..i + 1][..i] == numbers[..i];
  }

  lemma VerifyOf(view: View, master: nat, head: Head, numbers: seq<nat>)
    requires numbers == Sorted(AuditNumbers(view))
    ensures Verify(view, master, head) == match ScanChain(view, master, numbers)
      case Failure(e) => Failure(e)
      case Success(chain) => if Head(|chain.entries|, chain.root) == head then Success(chain.entries) else Failure(AuditError)
  {
  }

  lemma NoWrites(st: State, head: Head)
    requires head == st.head
    ensures Write(st, Commit(map[], head)) == st
  {
    ApplyNothing(st.backend);
    if st.overlay.Some? {
      assert st.overlay.value + map[] == st.overlay.value;
    }
  }

  /** A failure among the first n stops the whole loop. */
  lemma {:induction false} FetchFails(view: View, tag: Tag, ids: seq<nat>, n: nat)
    requires n <= |ids| && FetchAll(view, tag, ids[..n]).Failure?
    ensures FetchAll(view, tag, ids) == FetchAll(view, tag, ids[..n])
    decreases |ids| - n
  {
    if n == |ids| {
      assert ids[..n] == ids;
    } else {
      assert ids[..n + 1][..n] == ids[..n];
      FetchFails(view, tag, ids, n + 1);
    }
  }

  lemma {:induction false} SelectFails(found: seq<Found>, filter: Option<Predicates.Filter>, n: nat)
    requires n <= |found| && Select(found[..n], filter).Failure?
    ensures Select(found, filter) == Select(found[..n], filter)
    decreases |found| - n
  {
    if n == |found| {
      assert found[..n] == found;
    } else {
      assert found[..n + 1][..n] == found[..n];
      SelectFails(found, filter, n + 1);
    }
  }

  lemma {:induction false} ScanFails(view: View, master: nat, numbers: seq<nat>, n: nat)
    requires n <= |numbers| && ScanChain(view, master, numbers[..n]).Failure?
    ensures ScanChain(view, master, numbers) == ScanChain(view, master, numbers[..n])
    decreases |numbers| - n
  {
    if n == |numbers| {
      assert numbers[..n] == numbers;
    } else {
      assert numbers[..n + 1][..n] == numbers[..n];
      ScanFails(view, master, numbers, n + 1);
    }
  }

  lemma {:induction false} PrepareFails(view: View, tag: Tag, schema: Schema, positions: seq<nat>, rows: seq<Cells>, n: nat)
    requires n <= |rows| && forall i :: 0 <= i < |positions| ==> positions[i] < |schema.columns|
    requires PrepareRows(view, tag, schema, positions, rows, n).Failure?
    ensures PrepareRows(view, tag, schema, positions, rows, |rows|) == PrepareRows(view, tag, schema, positions, rows, n)
    decreases |rows| - n
  {
    if n < |rows| {
      PrepareFails(view, tag, schema, positions, rows, n + 1);
    }
  }

  lemma {:induction false} RangesFail(view: View, tag: Tag, mode: Mode, changes: seq<Change>, cols: seq<nat>, nonces: Nonces, n: nat)
    requires n <= |cols| && RangeWrites(view, tag, mode, changes, cols[..n], nonces).Failure?
    ensures RangeWrites(view, tag, mode, changes, cols, nonces) == RangeWrites(view, tag, mode, changes, cols[..n], nonces)
    decreases |cols| - n
  {
    if n == |cols| {
      assert cols[..n] == cols;
    } else {
      assert cols[..n + 1][..n] == cols[..n];
      RangesFail(view, tag, mode, changes, cols, nonces, n + 1);
    }
  }
}
