/** INSERT, UPDATE and DELETE: what they check, what they write, and that they keep the table invariant. */
module RowStatements {
  import opened Wrappers
  import opened EngineData
  import opened Predicates
  import opened Tables
  import opened RowChanges
  import opened RangeBlobs
  import opened Queries

  // ---------------------------------------------------------------- columns to maintain

  function MaintainedUpTo(schema: Schema, n: nat): (r: seq<nat>)
    requires n <= |schema.columns|
    ensures forall c: nat :: c in r <==> c < n && Maintained(schema, c)
  {
    if n == 0 then []
    else
      var rest := MaintainedUpTo(schema, n - 1);
      if Maintained(schema, n - 1) then rest + [n - 1] else rest
  }

  function MaintainedColumns(schema: Schema): (r: seq<nat>)
    ensures ListsMaintained(r, schema)
  {
    MaintainedUpTo(schema, |schema.columns|)
  }

  function RangedUpTo(schema: Schema, n: nat): (r: seq<nat>)
    requires n <= |schema.columns|
    ensures forall c: nat :: c in r <==> c < n && Ranged(schema, c)
  {
    if n == 0 then []
    else
      var rest := RangedUpTo(schema, n - 1);
      if Ranged(schema, n - 1) then rest + [n - 1] else rest
  }

  function RangedColumns(schema: Schema): (r: seq<nat>)
    ensures forall c :: c in r <==> Ranged(schema, c)
  {
    RangedUpTo(schema, |schema.columns|)
  }

  // ---------------------------------------------------------------- range blobs of a statement

  datatype Mode = Inserting | Updating | Deleting

  /** UPDATE and DELETE leave a blob alone when no changed row differs in its column. */
  predicate LeavesBlob(mode: Mode, changes: seq<Change>, c: nat) {
    mode != Inserting
    && forall i :: 0 <= i < |changes| ==> SameValue(CellOf(changes[i].before, c), CellOf(changes[i].after, c))
  }

  function NewBlob(mode: Mode, s: seq<Entry>, changes: seq<Change>, c: nat): seq<Entry> {
    if mode == Deleting then EntryChanges(s, changes, c) else SortEntries(EntryChanges(s, changes, c))
  }

  function PutBlob(b: Batch, tag: Tag, c: nat, s: seq<Entry>, nonces: Nonces): Batch {
    b[Range(tag, c) := Some(Seal(TableCipher(tag), nonces, RangePlain(s), Range(tag, c)))]
  }

  function RangeWrites(view: View, tag: Tag, mode: Mode, changes: seq<Change>, cols: seq<nat>, nonces: Nonces): Result<Batch, Error> {
    if cols == [] then Success(map[])
    else
      var n := |cols| - 1;
      var rest :- RangeWrites(view, tag, mode, changes, cols[..n], nonces);
      if LeavesBlob(mode, changes, cols[n]) then Success(rest)
      else
        var s :- LoadRange(view, tag, cols[n]);
        Success(PutBlob(rest, tag, cols[n], NewBlob(mode, s, changes, cols[n]), nonces))
  }

  /** What b does to the blob of column c, which is rewritten only if `listed`. */
  ghost predicate BlobWritten(b: Batch, view: View, tag: Tag, listed: bool, mode: Mode, changes: seq<Change>, nonces: Nonces, c: nat) {
    var k := Range(tag, c);
    && (k in b <==> listed && !LeavesBlob(mode, changes, c))
    && (k in b ==> b[k] == Some(Seal(TableCipher(tag), nonces, RangePlain(NewBlob(mode, BlobAt(view, tag, c), changes, c)), k)))
  }

  ghost predicate OnlyRanges(b: Batch, tag: Tag) {
    forall k :: k in b ==> k.Range? && k.tag == tag
  }

  lemma PutBlobWritten(rest: Batch, b: Batch, view: View, tag: Tag, mode: Mode, changes: seq<Change>, nonces: Nonces,
                       init: seq<nat>, last: nat)
    requires b == if LeavesBlob(mode, changes, last) then rest
                  else PutBlob(rest, tag, last, NewBlob(mode, BlobAt(view, tag, last), changes, last), nonces)
    requires OnlyRanges(rest, tag)
    requires forall c: nat :: BlobWritten(rest, view, tag, c in init, mode, changes, nonces, c)
    ensures OnlyRanges(b, tag)
    ensures forall c: nat :: BlobWritten(b, view, tag, c in init + [last], mode, changes, nonces, c)
  {
    hide LeavesBlob, NewBlob;
    forall c: nat
      ensures BlobWritten(b, view, tag, c in init + [last], mode, changes, nonces, c)
    {
      assert BlobWritten(rest, view, tag, c in init, mode, changes, nonces, c);
    }
  }

  lemma {:induction false} RangeWritesAt(view: View, tag: Tag, schema: Schema, mode: Mode, changes: seq<Change>, cols: seq<nat>, nonces: Nonces)
    requires RangesOk(view, tag, schema) && forall c :: c in cols ==> Ranged(schema, c)
    ensures RangeWrites(view, tag, mode, changes, cols, nonces).Success?
    ensures OnlyRanges(RangeWrites(view, tag, mode, changes, cols, nonces).value, tag)
    ensures forall c: nat ::
      BlobWritten(RangeWrites(view, tag, mode, changes, cols, nonces).value, view, tag, c in cols, mode, changes, nonces, c)
  {
    hide LeavesBlob, NewBlob, PutBlob, RangesOk, BlobOk;
    if cols == [] {
      assert RangeWrites(view, tag, mode, changes, cols, nonces).value == map[];
    } else {
      var n := |cols| - 1;
      var init, last := cols[..n], cols[n];
      assert cols == init + [last];
      hide BlobWritten, OnlyRanges;
      RangeWritesAt(view, tag, schema, mode, changes, init, nonces);
      RangeRead(view, tag, schema, last);
      var rest, b := RangeWrites(view, tag, mode, changes, init, nonces).value, RangeWrites(view, tag, mode, changes, cols, nonces).value;
      PutBlobWritten(rest, b, view, tag, mode, changes, nonces, init, last);
    }
  }

  // ---------------------------------------------------------------- the invariant after changing rows

  /** w differs from v only in the sequence and range keys of the table. */
  ghost predicate SameRowsAndIndex(v: View, w: View, tag: Tag) {
    forall k: Key :: (k.Row? || k.Index?) && k.tag == tag ==> (k in v <==> k in w) && (k in v ==> v[k] == w[k])
  }

  lemma FrameRows(v: View, w: View, tag: Tag, schema: Schema)
    requires SameRowsAndIndex(v, w, tag)
    ensures forall id :: Row(tag, id) in v <==> Row(tag, id) in w
    ensures forall id :: Contents(v, tag, id) == Contents(w, tag, id)
    ensures forall c, x, id :: HasCell(v, tag, c, x, id) <==> HasCell(w, tag, c, x, id)
    ensures RowsOk(v, tag, schema) ==> RowsOk(w, tag, schema)
    ensures IndexOk(v, tag, schema) ==> IndexOk(w, tag, schema)
  {
    forall id
      ensures Row(tag, id) in v <==> Row(tag, id) in w
      ensures Contents(v, tag, id) == Contents(w, tag, id)
      ensures Row(tag, id) in v ==> v[Row(tag, id)] == w[Row(tag, id)]
    {
      var k := Row(tag, id);
      assert k.Row?;
    }
    if IndexOk(v, tag, schema) {
      forall c: nat, x, id: nat
        ensures Index(tag, c, x, id) in w <==> Maintained(schema, c) && HasCell(w, tag, c, x, id)
        ensures Index(tag, c, x, id) in w ==> Boxed(w, TableCipher(tag), Index(tag, c, x, id))
      {
        var k := Index(tag, c, x, id);
        assert k.Index?;
        assert HasCell(v, tag, c, x, id) <==> HasCell(w, tag, c, x, id);
      }
    }
  }

  /** A blob that is left alone is still right. */
  lemma LeftBlobOk(view: View, tag: Tag, schema: Schema, mode: Mode, changes: seq<Change>, cols: seq<nat>, nonces: Nonces, c: nat)
    requires RowsOk(view, tag, schema) && ChangesOk(view, tag, schema, changes) && Ranged(schema, c)
    requires BlobOk(view, tag, c, BlobAt(view, tag, c)) && LeavesBlob(mode, changes, c)
    ensures BlobOk(Apply(ChangesWrites(tag, changes, cols, nonces), view), tag, c, BlobAt(view, tag, c))
  {
    var w := Apply(ChangesWrites(tag, changes, cols, nonces), view);
    hide Apply, ChangesWrites, InOrder;
    forall v, id
      ensures HasCell(w, tag, c, v, id) <==> HasCell(view, tag, c, v, id)
    {
      if i :| 0 <= i < |changes| && changes[i].id == id {
        CellTouched(view, tag, changes, cols, nonces, c, v, i);
        assert ChangeOk(view, tag, schema, changes[i]) && !FlipsZero(changes[i], c);
        assert CellOf(changes[i].before, c) == CellOf(changes[i].after, c);
      } else {
        CellUntouched(view, tag, changes, cols, nonces, c, v, id);
      }
    }
  }

  /** A rewritten blob is right. */
  lemma NewBlobOk(view: View, tag: Tag, schema: Schema, mode: Mode, changes: seq<Change>, cols: seq<nat>, nonces: Nonces, c: nat)
    requires RowsOk(view, tag, schema) && IndexOk(view, tag, schema) && ListsMaintained(cols, schema)
    requires ChangesOk(view, tag, schema, changes) && Ranged(schema, c) && BlobOk(view, tag, c, BlobAt(view, tag, c))
    requires mode == Deleting ==> forall i :: 0 <= i < |changes| ==> changes[i].after.None?
    ensures BlobOk(Apply(ChangesWrites(tag, changes, cols, nonces), view), tag, c, NewBlob(mode, BlobAt(view, tag, c), changes, c))
  {
    var s := BlobAt(view, tag, c);
    BlobIdsDistinct(view, tag, c, s);
    EntryChangesReflect(s, view, tag, schema, changes, |changes|, cols, nonces, c);
    assert changes[..|changes|] == changes;
    if mode == Deleting {
      RemovalsKeepOrder(s, changes, c);
    } else {
      var w := Apply(ChangesWrites(tag, changes, cols, nonces), view);
      ChangesKeepIndex(view, tag, schema, changes, |changes|, cols, nonces);
      CellsOfType(EntryChanges(s, changes, c), w, tag, schema, c);
      SortMembers(EntryChanges(s, changes, c), schema.columns[c].ty);
    }
    hide Apply, ChangesWrites, InOrder, EntryChanges, SortEntries, IndexOk, RowsOk;
  }

  /** The statement's whole batch: rows and index entries, then sequence and blobs. */
  ghost predicate StatementWrites(b: Batch, view: View, tag: Tag, schema: Schema, mode: Mode, changes: seq<Change>, nonces: Nonces) {
    exists extra: Batch ::
      && b == ChangesWrites(tag, changes, MaintainedColumns(schema), nonces) + extra
      && ExtraWrites(extra, view, tag, schema, mode, changes, nonces)
  }

  /** The sequence moves up to n, past every changed row. */
  ghost predicate SequenceWritten(b: Batch, view: View, tag: Tag, changes: seq<Change>, nonces: Nonces, n: nat)
    requires Sequence(tag) in b
  {
    && SequenceAt(view, tag) <= n && (forall i :: 0 <= i < |changes| ==> changes[i].id < n)
    && b[Sequence(tag)] == Some(Seal(TableCipher(tag), nonces, SequencePlain(n), Sequence(tag)))
  }

  /** Sequence and range keys only; rows are new only if the sequence is written. */
  ghost predicate ExtraWrites(extra: Batch, view: View, tag: Tag, schema: Schema, mode: Mode, changes: seq<Change>, nonces: Nonces) {
    && (forall k :: k in extra ==> (k.Sequence? || k.Range?) && k.tag == tag)
    && (Sequence(tag) in extra ==> exists n: nat :: SequenceWritten(extra, view, tag, changes, nonces, n))
    && (Sequence(tag) !in extra ==> forall i :: 0 <= i < |changes| ==> changes[i].before.Some?)
    && (forall c: nat :: BlobWritten(extra, view, tag, Ranged(schema, c), mode, changes, nonces, c))
  }

  lemma ExtraKeepsRows(view: View, tag: Tag, schema: Schema, mode: Mode, changes: seq<Change>, nonces: Nonces, b: Batch, extra: Batch)
    requires b == ChangesWrites(tag, changes, MaintainedColumns(schema), nonces) + extra
    requires ExtraWrites(extra, view, tag, schema, mode, changes, nonces)
    ensures SameRowsAndIndex(Apply(ChangesWrites(tag, changes, MaintainedColumns(schema), nonces), view), Apply(b, view), tag)
  {
    var base := ChangesWrites(tag, changes, MaintainedColumns(schema), nonces);
    ApplyTwice(base, extra, view);
    hide ChangesWrites, BlobWritten;
  }

  lemma BlobAfter(view: View, tag: Tag, schema: Schema, mode: Mode, changes: seq<Change>, nonces: Nonces, b: Batch, extra: Batch, c: nat)
    requires b == ChangesWrites(tag, changes, MaintainedColumns(schema), nonces) + extra
    requires RangeOk(view, tag, schema, c) && BlobWritten(extra, view, tag, Ranged(schema, c), mode, changes, nonces, c)
    ensures var w := Apply(b, view);
      Range(tag, c) in w <==> Ranged(schema, c)
    ensures var w := Apply(b, view);
      Range(tag, c) in w ==> Boxed(w, TableCipher(tag), Range(tag, c)) && w[Range(tag, c)].plain.RangePlain?
    ensures Ranged(schema, c) ==> BlobAt(Apply(b, view), tag, c) == if LeavesBlob(mode, changes, c) then BlobAt(view, tag, c)
                                                                    else NewBlob(mode, BlobAt(view, tag, c), changes, c)
  {
    var base := ChangesWrites(tag, changes, MaintainedColumns(schema), nonces);
    if Range(tag, c) in base {
      ChangesWritesKeys(tag, changes, MaintainedColumns(schema), nonces, Range(tag, c));
    }
    ApplyAt(b, view, Range(tag, c));
    hide ChangesWrites, Apply, LeavesBlob, NewBlob, BlobOk;
  }

  lemma RangesAfter(view: View, tag: Tag, schema: Schema, mode: Mode, changes: seq<Change>, nonces: Nonces, b: Batch, extra: Batch)
    requires RowsOk(view, tag, schema) && IndexOk(view, tag, schema) && RangesOk(view, tag, schema) && ChangesOk(view, tag, schema, changes)
    requires mode == Deleting ==> forall i :: 0 <= i < |changes| ==> changes[i].after.None?
    requires b == ChangesWrites(tag, changes, MaintainedColumns(schema), nonces) + extra
    requires ExtraWrites(extra, view, tag, schema, mode, changes, nonces)
    ensures RangesOk(Apply(b, view), tag, schema)
  {
    var cols, w := MaintainedColumns(schema), Apply(b, view);
    var base := Apply(ChangesWrites(tag, changes, cols, nonces), view);
    ExtraKeepsRows(view, tag, schema, mode, changes, nonces, b, extra);
    FrameRows(base, w, tag, schema);
    forall c: nat
      ensures RangeOk(w, tag, schema, c)
    {
      assert RangeOk(view, tag, schema, c) && BlobWritten(extra, view, tag, Ranged(schema, c), mode, changes, nonces, c);
      BlobAfter(view, tag, schema, mode, changes, nonces, b, extra, c);
      if Ranged(schema, c) {
        if LeavesBlob(mode, changes, c) {
          LeftBlobOk(view, tag, schema, mode, changes, cols, nonces, c);
        } else {
          NewBlobOk(view, tag, schema, mode, changes, cols, nonces, c);
        }
        hide *;
        BlobFrame(base, w, tag, c, BlobAt(w, tag, c));
      }
    }
  }

  lemma BlobFrame(v: View, w: View, tag: Tag, c: nat, s: seq<Entry>)
    requires forall c, x, id :: HasCell(v, tag, c, x, id) <==> HasCell(w, tag, c, x, id)
    ensures BlobOk(v, tag, c, s) <==> BlobOk(w, tag, c, s)
  {
  }

  /** What the primary-key checks of a statement establish about its new rows. */
  ghost predicate PrimaryKept(view: View, tag: Tag, changes: seq<Change>, c: nat) {
    && (forall i :: 0 <= i < |changes| && changes[i].after.Some? ==> CellOf(changes[i].after, c) != Null)
    && (forall i, j :: 0 <= i < j < |changes| && changes[i].after.Some? && changes[j].after.Some? ==>
          CellOf(changes[i].after, c) != CellOf(changes[j].after, c))
    && (forall i, id :: 0 <= i < |changes| && changes[i].after.Some? && HasCell(view, tag, c, CellOf(changes[i].after, c), id) ==>
          IsChanged(changes, id))
  }

  ghost predicate IsChanged(changes: seq<Change>, id: nat) {
    exists j :: 0 <= j < |changes| && changes[j].id == id
  }

  lemma DistinctAfter(view: View, tag: Tag, schema: Schema, changes: seq<Change>, cols: seq<nat>, nonces: Nonces, c: nat)
    requires RowsOk(view, tag, schema) && DistinctCells(view, tag, c) && ChangesOk(view, tag, schema, changes)
    requires PrimaryKept(view, tag, changes, c) && c < |schema.columns|
    ensures DistinctCells(Apply(ChangesWrites(tag, changes, cols, nonces), view), tag, c)
  {
    var w := Apply(ChangesWrites(tag, changes, cols, nonces), view);
    hide Apply, ChangesWrites, IndexWrites, RowsOk;
    forall id | Row(tag, id) in w
      ensures c < |Contents(w, tag, id)| && Contents(w, tag, id)[c] != Null
    {
      if i :| 0 <= i < |changes| && changes[i].id == id {
        RowAfterChanges(view, tag, changes, cols, nonces, i);
        assert ChangeOk(view, tag, schema, changes[i]);
        assert CellOf(changes[i].after, c) != Null;
      } else {
        RowUntouched(view, tag, changes, cols, nonces, id);
      }
    }
    forall i, j, v | HasCell(w, tag, c, v, i) && HasCell(w, tag, c, v, j)
      ensures i == j
    {
      SameHolder(view, tag, changes, cols, nonces, c, v, i, j);
    }
  }

  lemma SameHolder(view: View, tag: Tag, changes: seq<Change>, cols: seq<nat>, nonces: Nonces, c: nat, v: Value, i: nat, j: nat)
    requires DistinctCells(view, tag, c) && DistinctChanges(changes) && PrimaryKept(view, tag, changes, c)
    requires HasCell(Apply(ChangesWrites(tag, changes, cols, nonces), view), tag, c, v, i)
    requires HasCell(Apply(ChangesWrites(tag, changes, cols, nonces), view), tag, c, v, j)
    ensures i == j
  {
    hide Apply, ChangesWrites, HasCell;
    if IsChanged(changes, i) {
      ChangedHolder(view, tag, changes, cols, nonces, c, v, i, j);
    } else if IsChanged(changes, j) {
      ChangedHolder(view, tag, changes, cols, nonces, c, v, j, i);
    } else {
      CellUntouched(view, tag, changes, cols, nonces, c, v, i);
      CellUntouched(view, tag, changes, cols, nonces, c, v, j);
    }
  }

  lemma ChangedHolder(view: View, tag: Tag, changes: seq<Change>, cols: seq<nat>, nonces: Nonces, c: nat, v: Value, i: nat, j: nat)
    requires DistinctChanges(changes) && PrimaryKept(view, tag, changes, c) && IsChanged(changes, i)
    requires HasCell(Apply(ChangesWrites(tag, changes, cols, nonces), view), tag, c, v, i)
    requires HasCell(Apply(ChangesWrites(tag, changes, cols, nonces), view), tag, c, v, j)
    ensures i == j
  {
    hide Apply, ChangesWrites, HasCell;
    var x :| 0 <= x < |changes| && changes[x].id == i;
    CellTouched(view, tag, changes, cols, nonces, c, v, x);
    if !IsChanged(changes, j) {
      CellUntouched(view, tag, changes, cols, nonces, c, v, j);
    }
    var y :| 0 <= y < |changes| && changes[y].id == j;
    CellTouched(view, tag, changes, cols, nonces, c, v, y);
  }

  lemma SequenceAfter(view: View, tag: Tag, schema: Schema, mode: Mode, changes: seq<Change>, nonces: Nonces, b: Batch, extra: Batch)
    requires SequenceOk(view, tag) && ChangesOk(view, tag, schema, changes)
    requires b == ChangesWrites(tag, changes, MaintainedColumns(schema), nonces) + extra
    requires ExtraWrites(extra, view, tag, schema, mode, changes, nonces)
    ensures SequenceOk(Apply(b, view), tag)
  {
    var cols, w := MaintainedColumns(schema), Apply(b, view);
    var base := ChangesWrites(tag, changes, cols, nonces);
    if Sequence(tag) in base {
      ChangesWritesKeys(tag, changes, cols, nonces, Sequence(tag));
    }
    ApplyAt(b, view, Sequence(tag));
    ExtraKeepsRows(view, tag, schema, mode, changes, nonces, b, extra);
    hide Apply, ChangesWrites, IndexWrites, BlobWritten, MaintainedColumns, SameRowsAndIndex;
    FrameRows(Apply(base, view), w, tag, schema);
    forall id: nat | Row(tag, id) in w
      ensures id < SequenceAt(w, tag)
    {
      if i :| 0 <= i < |changes| && changes[i].id == id {
        assert ChangeOk(view, tag, schema, changes[i]);
      } else {
        RowUntouched(view, tag, changes, cols, nonces, id);
      }
    }
  }

  /** Everything a statement on the rows of one table must get right. */
  ghost predicate GoodStatement(b: Batch, view: View, tag: Tag, schema: Schema, mode: Mode, changes: seq<Change>, nonces: Nonces) {
    && StatementWrites(b, view, tag, schema, mode, changes, nonces)
    && ChangesOk(view, tag, schema, changes)
    && (mode == Deleting ==> forall i :: 0 <= i < |changes| ==> changes[i].after.None?)
    && (forall c: nat :: IsPrimary(schema, c) ==> PrimaryKept(view, tag, changes, c))
  }

  ghost predicate OwnKeys(b: Batch, tag: Tag) {
    forall k :: k in b ==> Owner(k) == Some(tag)
  }

  lemma CatalogAfter(view: View, tag: Tag, schema: Schema, mode: Mode, changes: seq<Change>, nonces: Nonces, b: Batch, extra: Batch)
    requires b == ChangesWrites(tag, changes, MaintainedColumns(schema), nonces) + extra
    requires ExtraWrites(extra, view, tag, schema, mode, changes, nonces)
    ensures OwnKeys(b, tag) && Catalog(tag) !in b
  {
    hide IndexWrites, ChangesWrites, BlobWritten;
    forall k | k in b
      ensures Owner(k) == Some(tag) && k != Catalog(tag)
    {
      if k !in extra {
        ChangesWritesKeys(tag, changes, MaintainedColumns(schema), nonces, k);
      }
    }
  }

  /** Main step: a good statement keeps the table invariant and the schema. */
  lemma StatementKeepsTable(view: View, tag: Tag, schema: Schema, mode: Mode, changes: seq<Change>, nonces: Nonces, b: Batch)
    requires TableInv(view, tag) && Catalog(tag) in view && schema == SchemaAt(view, tag)
    requires GoodStatement(b, view, tag, schema, mode, changes, nonces)
    ensures TableInv(Apply(b, view), tag) && Catalog(tag) in Apply(b, view) && SchemaAt(Apply(b, view), tag) == schema
    ensures OwnKeys(b, tag)
  {
    TableParts(view, tag);
    hide *;
    var cols, w := MaintainedColumns(schema), Apply(b, view);
    var extra := GoodParts(b, view, tag, schema, mode, changes, nonces);
    var base := Apply(ChangesWrites(tag, changes, cols, nonces), view);
    CatalogAfter(view, tag, schema, mode, changes, nonces, b, extra);
    CatalogKept(b, view, tag);
    ChangesKeepIndex(view, tag, schema, changes, |changes|, cols, nonces);
    assert changes[..|changes|] == changes;
    ExtraKeepsRows(view, tag, schema, mode, changes, nonces, b, extra);
    FrameRows(base, w, tag, schema);
    RangesAfter(view, tag, schema, mode, changes, nonces, b, extra);
    SequenceAfter(view, tag, schema, mode, changes, nonces, b, extra);
    forall c: nat | IsPrimary(schema, c)
      ensures DistinctCells(w, tag, c)
    {
      PrimaryFacts(view, tag, schema, c);
      DistinctAfter(view, tag, schema, changes, cols, nonces, c);
      DistinctFrame(base, w, tag, c);
    }
    TableFrom(w, tag, schema);
  }

  lemma PrimaryFacts(view: View, tag: Tag, schema: Schema, c: nat)
    requires PrimaryOk(view, tag, schema) && IsPrimary(schema, c)
    ensures c < |schema.columns| && DistinctCells(view, tag, c)
  {
  }

  lemma GoodParts(b: Batch, view: View, tag: Tag, schema: Schema, mode: Mode, changes: seq<Change>, nonces: Nonces)
      returns (extra: Batch)
    requires GoodStatement(b, view, tag, schema, mode, changes, nonces)
    ensures b == ChangesWrites(tag, changes, MaintainedColumns(schema), nonces) + extra
    ensures ExtraWrites(extra, view, tag, schema, mode, changes, nonces) && ChangesOk(view, tag, schema, changes)
    ensures mode == Deleting ==> forall i :: 0 <= i < |changes| ==> changes[i].after.None?
    ensures forall c: nat :: IsPrimary(schema, c) ==> PrimaryKept(view, tag, changes, c)
    ensures ListsMaintained(MaintainedColumns(schema), schema)
  {
    hide ExtraWrites, ChangesOk, PrimaryKept, ChangesWrites;
    extra :| b == ChangesWrites(tag, changes, MaintainedColumns(schema), nonces) + extra && ExtraWrites(extra, view, tag, schema, mode, changes, nonces);
  }

  lemma CatalogKept(b: Batch, view: View, tag: Tag)
    requires Catalog(tag) !in b && Catalog(tag) in view && CatalogOk(view, tag)
    ensures Catalog(tag) in Apply(b, view) && CatalogOk(Apply(b, view), tag) && SchemaAt(Apply(b, view), tag) == SchemaAt(view, tag)
  {
    ApplyAt(b, view, Catalog(tag));
  }

  lemma TableFrom(w: View, tag: Tag, schema: Schema)
    requires Catalog(tag) in w && CatalogOk(w, tag) && SchemaAt(w, tag) == schema
    requires RowsOk(w, tag, schema) && IndexOk(w, tag, schema) && RangesOk(w, tag, schema) && SequenceOk(w, tag)
    requires forall c: nat :: IsPrimary(schema, c) ==> DistinctCells(w, tag, c)
    ensures TableInv(w, tag)
  {
    hide RowsOk, IndexOk, RangesOk, SequenceOk, DistinctCells;
  }

  lemma DistinctFrame(v: View, w: View, tag: Tag, c: nat)
    requires forall id :: Row(tag, id) in v <==> Row(tag, id) in w
    requires forall id :: Contents(v, tag, id) == Contents(w, tag, id)
    requires DistinctCells(v, tag, c)
    ensures DistinctCells(w, tag, c)
  {
    forall x, id
      ensures HasCell(v, tag, c, x, id) <==> HasCell(w, tag, c, x, id)
    {
      assert Contents(v, tag, id) == Contents(w, tag, id);
    }
  }

  // ---------------------------------------------------------------- when a zero only changes its sign

  /** ChangesOk without the condition on zeros. */
  ghost predicate ChangesFit(view: View, tag: Tag, schema: Schema, changes: seq<Change>) {
    DistinctChanges(changes) && forall i :: 0 <= i < |changes| ==> ChangeFits(view, tag, schema, changes[i])
  }

  ghost predicate ChangeFits(view: View, tag: Tag, schema: Schema, ch: Change) {
    && ch.before == (if Row(tag, ch.id) in view then Some(Contents(view, tag, ch.id)) else None)
    && (ch.after.Some? ==> Typed(ch.after.value, schema))
  }

  ghost predicate KeepsSigns(changes: seq<Change>, schema: Schema) {
    forall i :: 0 <= i < |changes| ==> KeepsZeroSigns(changes[i], schema)
  }

  lemma FittingChanges(view: View, tag: Tag, schema: Schema, changes: seq<Change>)
    ensures ChangesOk(view, tag, schema, changes) <==> ChangesFit(view, tag, schema, changes) && KeepsSigns(changes, schema)
  {
    assert forall i :: 0 <= i < |changes| ==>
      (ChangeOk(view, tag, schema, changes[i]) <==> ChangeFits(view, tag, schema, changes[i]) && KeepsZeroSigns(changes[i], schema));
    hide ChangeOk, ChangeFits, KeepsZeroSigns;
  }

  /** The old cell is gone from the row. */
  lemma FlippedCellGone(view: View, tag: Tag, schema: Schema, changes: seq<Change>, nonces: Nonces, i: nat, c: nat)
    requires ChangesFit(view, tag, schema, changes) && i < |changes| && FlipsZero(changes[i], c) && c < |schema.columns|
    requires RowsOk(view, tag, schema)
    ensures var o := CellOf(changes[i].before, c);
      && HasCell(view, tag, c, o, changes[i].id)
      && !HasCell(Apply(ChangesWrites(tag, changes, MaintainedColumns(schema), nonces), view), tag, c, o, changes[i].id)
  {
    var o := CellOf(changes[i].before, c);
    hide Apply, ChangesWrites, MaintainedColumns;
    assert ChangeFits(view, tag, schema, changes[i]);
    CellTouched(view, tag, changes, MaintainedColumns(schema), nonces, c, o, i);
  }

  /** A flip in a maintained column leaves the old index entry behind. */
  lemma FlipBreaksIndex(view: View, tag: Tag, schema: Schema, mode: Mode, changes: seq<Change>, nonces: Nonces, b: Batch, extra: Batch, i: nat, c: nat)
    requires RowsOk(view, tag, schema) && IndexOk(view, tag, schema) && ChangesFit(view, tag, schema, changes)
    requires i < |changes| && FlipsZero(changes[i], c) && Maintained(schema, c)
    requires b == ChangesWrites(tag, changes, MaintainedColumns(schema), nonces) + extra
    requires ExtraWrites(extra, view, tag, schema, mode, changes, nonces)
    ensures !IndexOk(Apply(b, view), tag, schema)
  {
    var cols, o, id := MaintainedColumns(schema), CellOf(changes[i].before, c), changes[i].id;
    var base, w := Apply(ChangesWrites(tag, changes, cols, nonces), view), Apply(b, view);
    var k := Index(tag, c, o, id);
    FlippedCellGone(view, tag, schema, changes, nonces, i, c);
    assert k in view;
    forall j | 0 <= j < |changes|
      ensures !IsTouched(tag, changes[j], cols, k)
    {
      assert j != i ==> changes[j].id != id;
    }
    IndexKeyUntouched(tag, changes, cols, nonces, k);
    ApplyAt(b, view, k);
    ExtraKeepsRows(view, tag, schema, mode, changes, nonces, b, extra);
    FrameRows(base, w, tag, schema);
    hide Apply, ChangesWrites, ExtraWrites, HasCell, RowsOk;
    assert k in w && !HasCell(w, tag, c, o, id);
  }

  /** A flip in a range-indexed column leaves the old entry in the blob. */
  lemma FlipBreaksRange(view: View, tag: Tag, schema: Schema, changes: seq<Change>, nonces: Nonces, b: Batch, extra: Batch, i: nat, c: nat)
    requires RowsOk(view, tag, schema) && RangesOk(view, tag, schema) && ChangesFit(view, tag, schema, changes)
    requires i < |changes| && FlipsZero(changes[i], c) && Ranged(schema, c)
    requires b == ChangesWrites(tag, changes, MaintainedColumns(schema), nonces) + extra
    requires ExtraWrites(extra, view, tag, schema, Updating, changes, nonces)
    ensures !RangesOk(Apply(b, view), tag, schema)
  {
    var cols, o, id := MaintainedColumns(schema), CellOf(changes[i].before, c), changes[i].id;
    var base, w := Apply(ChangesWrites(tag, changes, cols, nonces), view), Apply(b, view);
    var s, e := BlobAt(view, tag, c), Entry(o, id);
    assert RangeOk(view, tag, schema, c) && BlobWritten(extra, view, tag, Ranged(schema, c), Updating, changes, nonces, c);
    assert HasCell(view, tag, c, o, id) ==> e in s;
    forall j | 0 <= j < |changes| && changes[j].id == id
      ensures changes[j].after.Some? && SameValue(CellOf(changes[j].before, c), CellOf(changes[j].after, c))
    {
      assert j == i;
    }
    hide *;
    FlippedCellGone(view, tag, schema, changes, nonces, i, c);
    ExtraKeepsRows(view, tag, schema, Updating, changes, nonces, b, extra);
    FrameRows(base, w, tag, schema);
    BlobAfter(view, tag, schema, Updating, changes, nonces, b, extra, c);
    StaysInBlob(s, changes, c, e);
    WrongEntry(w, tag, schema, c, e);
  }

  lemma StaysInBlob(s: seq<Entry>, changes: seq<Change>, c: nat, e: Entry)
    requires e in s
    requires forall i :: 0 <= i < |changes| && changes[i].id == e.id ==>
      changes[i].after.Some? && SameValue(CellOf(changes[i].before, c), CellOf(changes[i].after, c))
    ensures e in NewBlob(Updating, s, changes, c)
  {
    EntryStays(s, changes, c, e);
    SortKeepsMembers(EntryChanges(s, changes, c));
    assert e in multiset(EntryChanges(s, changes, c));
  }

  lemma WrongEntry(w: View, tag: Tag, schema: Schema, c: nat, e: Entry)
    requires e in BlobAt(w, tag, c) && !HasCell(w, tag, c, e.value, e.id) && Range(tag, c) in w
    ensures !RangesOk(w, tag, schema)
  {
    assert e == Entry(e.value, e.id);
    assert !RangeOk(w, tag, schema, c);
  }
}
