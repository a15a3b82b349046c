/**
 What INSERT, UPDATE and DELETE write for each row, and why replacing one row at a time
 keeps the equality index exact.
 */
module RowChanges {
  import opened Wrappers
  import opened EngineData
  import opened Predicates
  import opened Tables

  // ---------------------------------------------------------------- batches

  /** The view after a batch. */
  function Apply(b: Batch, view: View): View {
    map k | k in view.Keys + b.Keys && (k in b ==> b[k].Some?) :: if k in b then b[k].value else view[k]
  }

  lemma ApplyAt(b: Batch, view: View, k: Key)
    ensures k in Apply(b, view) <==> if k in b then b[k].Some? else k in view
    ensures k in Apply(b, view) ==> Apply(b, view)[k] == if k in b then b[k].value else view[k]
  {
  }

  lemma ApplyTwice(a: Batch, b: Batch, view: View)
    ensures Apply(a + b, view) == Apply(b, Apply(a, view))
  {
  }

  lemma ApplyNothing(view: View)
    ensures Apply(map[], view) == view
  {
  }

  // ---------------------------------------------------------------- one row

  /** A row before and after; None where there is no row. */
  datatype Change = Change(id: nat, before: Option<Cells>, after: Option<Cells>)

  function CellOf(row: Option<Cells>, c: nat): Value {
    if row.Some? && c < |row.value| then row.value[c] else Null
  }

  function PutMarker(b: Batch, tag: Tag, c: nat, v: Value, id: nat, nonces: Nonces): Batch {
    b[Index(tag, c, v, id) := Some(Seal(TableCipher(tag), nonces, Marker, Index(tag, c, v, id)))]
  }

  /** The index entries that change for the given columns. */
  function IndexWrites(tag: Tag, ch: Change, cols: seq<nat>, nonces: Nonces): Batch {
    if cols == [] then map[]
    else
      var n := |cols| - 1;
      var b := IndexWrites(tag, ch, cols[..n], nonces);
      var c := cols[n];
      var o, v := CellOf(ch.before, c), CellOf(ch.after, c);
      if SameValue(o, v) then b
      else
        var b1 := if o == Null then b else b[Index(tag, c, o, ch.id) := None];
        if v == Null then b1 else PutMarker(b1, tag, c, v, ch.id, nonces)
  }

  function RowWrite(tag: Tag, ch: Change, nonces: Nonces): Option<Sealed> {
    if ch.after.None? then None
    else Some(Seal(TableCipher(tag), nonces, RowPlain(ch.after.value), Row(tag, ch.id)))
  }

  function ChangeWrites(tag: Tag, ch: Change, cols: seq<nat>, nonces: Nonces): Batch {
    IndexWrites(tag, ch, cols, nonces)[Row(tag, ch.id) := RowWrite(tag, ch, nonces)]
  }

  predicate IsTouched(tag: Tag, ch: Change, cols: seq<nat>, k: Key) {
    k.Index? && k.tag == tag && k.id == ch.id && k.col in cols && k.value != Null
    && !SameValue(CellOf(ch.before, k.col), CellOf(ch.after, k.col))
    && (k.value == CellOf(ch.before, k.col) || k.value == CellOf(ch.after, k.col))
  }

  /** Which index keys one change touches, and how. */
  lemma {:induction false} IndexWritesAt(tag: Tag, ch: Change, cols: seq<nat>, nonces: Nonces, k: Key)
    ensures k in IndexWrites(tag, ch, cols, nonces) <==> IsTouched(tag, ch, cols, k)
    ensures var b := IndexWrites(tag, ch, cols, nonces);
      k in b ==> b[k] == if k.value == CellOf(ch.after, k.col) then Some(Seal(TableCipher(tag), nonces, Marker, k)) else None
  {
    if cols != [] {
      var n := |cols| - 1;
      IndexWritesAt(tag, ch, cols[..n], nonces, k);
      assert cols == cols[..n] + [cols[n]];
      assert k.Index? ==> (k.col in cols <==> k.col in cols[..n] || k.col == cols[n]);
    }
  }

  /** The changed row is the one stored before, new cells are typed, and no zero only changes its sign. */
  ghost predicate ChangeOk(view: View, tag: Tag, schema: Schema, ch: Change) {
    && ch.before == (if Row(tag, ch.id) in view then Some(Contents(view, tag, ch.id)) else None)
    && (ch.after.Some? ==> Typed(ch.after.value, schema))
    && KeepsZeroSigns(ch, schema)
  }

  /** No maintained or range-indexed cell goes from one floating-point zero to the other. */
  ghost predicate KeepsZeroSigns(ch: Change, schema: Schema) {
    forall c :: Maintained(schema, c) || Ranged(schema, c) ==> !FlipsZero(ch, c)
  }

  predicate FlipsZero(ch: Change, c: nat) {
    ch.before.Some? && ch.after.Some? && SameValue(CellOf(ch.before, c), CellOf(ch.after, c))
    && CellOf(ch.before, c) != CellOf(ch.after, c)
  }

  /** cols lists exactly the maintained columns. */
  ghost predicate ListsMaintained(cols: seq<nat>, schema: Schema) {
    forall c :: c in cols <==> Maintained(schema, c)
  }

  lemma RowAfterChange(view: View, tag: Tag, ch: Change, cols: seq<nat>, nonces: Nonces, id: nat)
    ensures var w := Apply(ChangeWrites(tag, ch, cols, nonces), view);
      && (Row(tag, id) in w <==> if id == ch.id then ch.after.Some? else Row(tag, id) in view)
      && (Row(tag, id) in w && id != ch.id ==> w[Row(tag, id)] == view[Row(tag, id)])
      && (Row(tag, id) in w && id == ch.id ==>
            w[Row(tag, id)] == Seal(TableCipher(tag), nonces, RowPlain(ch.after.value), Row(tag, id)))
      && Contents(w, tag, id) == (if id != ch.id then Contents(view, tag, id) else if ch.after.Some? then ch.after.value else [])
  {
    IndexWritesAt(tag, ch, cols, nonces, Row(tag, id));
    ApplyAt(ChangeWrites(tag, ch, cols, nonces), view, Row(tag, id));
    hide IndexWrites, Apply;
  }

  lemma IndexAfterChange(view: View, tag: Tag, ch: Change, cols: seq<nat>, nonces: Nonces, c: nat, v: Value, id: nat)
    ensures var w, k := Apply(ChangeWrites(tag, ch, cols, nonces), view), Index(tag, c, v, id);
      var o, u := CellOf(ch.before, c), CellOf(ch.after, c);
      var touched := id == ch.id && c in cols && v != Null && !SameValue(o, u) && (v == o || v == u);
      && (k in w <==> if touched then v == u else k in view)
      && (k in w ==> w[k] == if touched then Seal(TableCipher(tag), nonces, Marker, k) else view[k])
  {
    var k := Index(tag, c, v, id);
    IndexWritesAt(tag, ch, cols, nonces, k);
    ApplyAt(ChangeWrites(tag, ch, cols, nonces), view, k);
    hide IndexWrites, Apply;
  }

  /** Rows stay typed and readable. */
  lemma ChangeKeepsRows(view: View, tag: Tag, schema: Schema, ch: Change, cols: seq<nat>, nonces: Nonces)
    requires RowsOk(view, tag, schema) && ChangeOk(view, tag, schema, ch)
    ensures RowsOk(Apply(ChangeWrites(tag, ch, cols, nonces), view), tag, schema)
  {
    hide ChangeWrites, Apply;
    var w := Apply(ChangeWrites(tag, ch, cols, nonces), view);
    forall id | Row(tag, id) in w
      ensures Boxed(w, TableCipher(tag), Row(tag, id)) && w[Row(tag, id)].plain.RowPlain? && Typed(Contents(w, tag, id), schema)
    {
      RowAfterChange(view, tag, ch, cols, nonces, id);
    }
  }

  /** The cells of the view after one change. */
  lemma CellAfterChange(view: View, tag: Tag, ch: Change, cols: seq<nat>, nonces: Nonces, c: nat, v: Value, id: nat)
    ensures HasCell(Apply(ChangeWrites(tag, ch, cols, nonces), view), tag, c, v, id)
        <==> if id == ch.id then v != Null && CellOf(ch.after, c) == v else HasCell(view, tag, c, v, id)
  {
    hide ChangeWrites, Apply;
    RowAfterChange(view, tag, ch, cols, nonces, id);
  }

  /** Replacing one row keeps the equality index exact. */
  lemma ChangeKeepsIndex(view: View, tag: Tag, schema: Schema, ch: Change, cols: seq<nat>, nonces: Nonces)
    requires RowsOk(view, tag, schema) && IndexOk(view, tag, schema) && ChangeOk(view, tag, schema, ch) && ListsMaintained(cols, schema)
    ensures IndexOk(Apply(ChangeWrites(tag, ch, cols, nonces), view), tag, schema)
  {
    var w := Apply(ChangeWrites(tag, ch, cols, nonces), view);
    hide ChangeWrites, Apply;
    forall c: nat, v, id: nat
      ensures Index(tag, c, v, id) in w <==> Maintained(schema, c) && HasCell(w, tag, c, v, id)
      ensures Index(tag, c, v, id) in w ==> Boxed(w, TableCipher(tag), Index(tag, c, v, id))
    {
      IndexAfterChange(view, tag, ch, cols, nonces, c, v, id);
      CellAfterChange(view, tag, ch, cols, nonces, c, v, id);
      assert HasCell(view, tag, c, v, ch.id) <==> v != Null && CellOf(ch.before, c) == v;
      assert Maintained(schema, c) && ch.before.Some? && ch.after.Some? ==> !FlipsZero(ch, c);
    }
  }

  // ---------------------------------------------------------------- several rows

  function ChangesWrites(tag: Tag, changes: seq<Change>, cols: seq<nat>, nonces: Nonces): Batch {
    if changes == [] then map[]
    else
      var n := |changes| - 1;
      ChangesWrites(tag, changes[..n], cols, nonces) + ChangeWrites(tag, changes[n], cols, nonces)
  }

  ghost predicate DistinctChanges(changes: seq<Change>) {
    forall i, j :: 0 <= i < j < |changes| ==> changes[i].id != changes[j].id
  }

  ghost predicate ChangesOk(view: View, tag: Tag, schema: Schema, changes: seq<Change>) {
    DistinctChanges(changes) && forall i :: 0 <= i < |changes| ==> ChangeOk(view, tag, schema, changes[i])
  }

  /** Only row and index keys of the changed rows are written. */
  lemma {:induction false} ChangesWritesKeys(tag: Tag, changes: seq<Change>, cols: seq<nat>, nonces: Nonces, k: Key)
    requires k in ChangesWrites(tag, changes, cols, nonces)
    ensures Owner(k) == Some(tag) && (k.Row? || k.Index?) && exists i :: 0 <= i < |changes| && changes[i].id == k.id
  {
    var n := |changes| - 1;
    IndexWritesAt(tag, changes[n], cols, nonces, k);
    if k in ChangesWrites(tag, changes[..n], cols, nonces) {
      ChangesWritesKeys(tag, changes[..n], cols, nonces, k);
      var i :| 0 <= i < n && changes[..n][i].id == k.id;
      assert changes[i].id == k.id;
    }
  }

  lemma RowUntouched(view: View, tag: Tag, changes: seq<Change>, cols: seq<nat>, nonces: Nonces, id: nat)
    requires forall i :: 0 <= i < |changes| ==> changes[i].id != id
    ensures var w := Apply(ChangesWrites(tag, changes, cols, nonces), view);
      (Row(tag, id) in w <==> Row(tag, id) in view) && Contents(w, tag, id) == Contents(view, tag, id)
  {
    if Row(tag, id) in ChangesWrites(tag, changes, cols, nonces) {
      ChangesWritesKeys(tag, changes, cols, nonces, Row(tag, id));
    }
  }

  /** The first n changes, then the next one. */
  lemma NextChange(view: View, tag: Tag, changes: seq<Change>, n: nat, cols: seq<nat>, nonces: Nonces)
    requires n < |changes|
    ensures Apply(ChangesWrites(tag, changes[..n + 1], cols, nonces), view)
         == Apply(ChangeWrites(tag, changes[n], cols, nonces), Apply(ChangesWrites(tag, changes[..n], cols, nonces), view))
  {
    assert changes[..n + 1][..n] == changes[..n];
    ApplyTwice(ChangesWrites(tag, changes[..n], cols, nonces), ChangeWrites(tag, changes[n], cols, nonces), view);
  }

  /** A change is still the right one after earlier changes to other rows. */
  lemma ChangeStillOk(view: View, tag: Tag, schema: Schema, changes: seq<Change>, n: nat, cols: seq<nat>, nonces: Nonces)
    requires ChangesOk(view, tag, schema, changes) && n < |changes|
    ensures ChangeOk(Apply(ChangesWrites(tag, changes[..n], cols, nonces), view), tag, schema, changes[n])
  {
    RowUntouched(view, tag, changes[..n], cols, nonces, changes[n].id);
  }

  /** Any run of row changes keeps rows typed and the equality index exact. */
  lemma {:induction false} ChangesKeepIndex(view: View, tag: Tag, schema: Schema, changes: seq<Change>, n: nat, cols: seq<nat>, nonces: Nonces)
    requires RowsOk(view, tag, schema) && IndexOk(view, tag, schema) && ListsMaintained(cols, schema)
    requires ChangesOk(view, tag, schema, changes) && n <= |changes|
    ensures var w := Apply(ChangesWrites(tag, changes[..n], cols, nonces), view);
      RowsOk(w, tag, schema) && IndexOk(w, tag, schema)
    decreases n
  {
    hide RowsOk, IndexOk, ChangeWrites, Apply, ChangeOk;
    if n == 0 {
      ApplyNothing(view);
    } else {
      ChangesKeepIndex(view, tag, schema, changes, n - 1, cols, nonces);
      NextChange(view, tag, changes, n - 1, cols, nonces);
      ChangeStillOk(view, tag, schema, changes, n - 1, cols, nonces);
      var v := Apply(ChangesWrites(tag, changes[..n - 1], cols, nonces), view);
      ChangeKeepsRows(v, tag, schema, changes[n - 1], cols, nonces);
      ChangeKeepsIndex(v, tag, schema, changes[n - 1], cols, nonces);
    }
  }

  lemma {:induction false} RowAfterChanges(view: View, tag: Tag, changes: seq<Change>, cols: seq<nat>, nonces: Nonces, i: nat)
    requires i < |changes| && DistinctChanges(changes)
    ensures var w, id := Apply(ChangesWrites(tag, changes, cols, nonces), view), changes[i].id;
      (Row(tag, id) in w <==> changes[i].after.Some?)
      && Contents(w, tag, id) == if changes[i].after.Some? then changes[i].after.value else []
  {
    var n := |changes| - 1;
    NextChange(view, tag, changes, n, cols, nonces);
    assert changes[..n + 1] == changes;
    RowAfterChange(Apply(ChangesWrites(tag, changes[..n], cols, nonces), view), tag, changes[n], cols, nonces, changes[i].id);
    if i < n {
      RowAfterChanges(view, tag, changes[..n], cols, nonces, i);
    }
    hide Contents, Apply, ChangesWrites;
  }

  /** The cells after all changes: the old ones for rows that were not changed... */
  lemma CellUntouched(view: View, tag: Tag, changes: seq<Change>, cols: seq<nat>, nonces: Nonces, c: nat, v: Value, id: nat)
    requires forall i :: 0 <= i < |changes| ==> changes[i].id != id
    ensures HasCell(Apply(ChangesWrites(tag, changes, cols, nonces), view), tag, c, v, id) <==> HasCell(view, tag, c, v, id)
  {
    RowUntouched(view, tag, changes, cols, nonces, id);
  }

  /** ...and the new ones for the changed rows. */
  lemma CellTouched(view: View, tag: Tag, changes: seq<Change>, cols: seq<nat>, nonces: Nonces, c: nat, v: Value, i: nat)
    requires i < |changes| && DistinctChanges(changes)
    ensures HasCell(Apply(ChangesWrites(tag, changes, cols, nonces), view), tag, c, v, changes[i].id)
        <==> v != Null && CellOf(changes[i].after, c) == v
  {
    RowAfterChanges(view, tag, changes, cols, nonces, i);
  }

  /** An index key that no change touches is not written. */
  lemma {:induction false} IndexKeyUntouched(tag: Tag, changes: seq<Change>, cols: seq<nat>, nonces: Nonces, k: Key)
    requires k.Index? && forall i :: 0 <= i < |changes| ==> !IsTouched(tag, changes[i], cols, k)
    ensures k !in ChangesWrites(tag, changes, cols, nonces)
  {
    if changes != [] {
      var n := |changes| - 1;
      IndexWritesAt(tag, changes[n], cols, nonces, k);
      IndexKeyUntouched(tag, changes[..n], cols, nonces, k);
      hide IsTouched, IndexWrites;
    }
  }
}
