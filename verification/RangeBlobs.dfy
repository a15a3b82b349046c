/** The sealed range blobs: sorting their entries, and keeping them in step with the rows. */
module RangeBlobs {
  import opened Wrappers
  import opened EngineData
  import opened Predicates
  import opened Tables
  import opened RowChanges

  // ---------------------------------------------------------------- sorting

  function InsertEntry(e: Entry, s: seq<Entry>): seq<Entry> {
    if s == [] then [e]
    else if EntryLess(e, s[0]) then [e] + s
    else [s[0]] + InsertEntry(e, s[1..])
  }

  function SortEntries(s: seq<Entry>): seq<Entry> {
    if s == [] then [] else InsertEntry(s[|s| - 1], SortEntries(s[..|s| - 1]))
  }

  /** The entries of a column all have its type. */
  ghost predicate OfType(s: seq<Entry>, ty: Type) {
    forall i :: 0 <= i < |s| ==> HasType(s[i].value, ty)
  }

  /** No entry of this row. */
  ghost predicate Misses(s: seq<Entry>, id: nat) {
    forall i :: 0 <= i < |s| ==> s[i].id != id
  }

  lemma EntryOrder(a: Entry, b: Entry, c: Entry, ty: Type)
    requires HasType(a.value, ty) && HasType(b.value, ty) && HasType(c.value, ty)
    ensures a.id != b.id ==> EntryLess(a, b) || EntryLess(b, a)
    ensures EntryLess(a, b) && EntryLess(b, c) ==> EntryLess(a, c)
  {
    hide Predicates.Compare;
    CompareFlip(a.value, b.value);
    if EntryLess(a, b) && EntryLess(b, c) {
      CompareTransitive(a.value, b.value, c.value);
      CompareFlip(a.value, b.value);
      CompareFlip(b.value, c.value);
      if Predicates.Compare(a.value, b.value) == Equal && Predicates.Compare(b.value, c.value) == Equal {
        CompareTransitive(c.value, b.value, a.value);
        CompareFlip(a.value, c.value);
      }
    }
  }

  lemma {:induction false} InsertKeepsOrder(e: Entry, s: seq<Entry>, ty: Type)
    requires HasType(e.value, ty) && OfType(s, ty) && InOrder(s) && Misses(s, e.id)
    ensures InOrder(InsertEntry(e, s)) && multiset(InsertEntry(e, s)) == multiset(s) + multiset{e}
  {
    hide Predicates.Compare, HasType;
    if s == [] {
    } else if EntryLess(e, s[0]) {
      forall j | 0 <= j < |s|
        ensures EntryLess(e, s[j])
      {
        if j > 0 {
          EntryOrder(e, s[0], s[j], ty);
        }
      }
      hide EntryLess;
      assert multiset([e] + s) == multiset{e} + multiset(s);
    } else {
      EntryOrder(e, s[0], s[0], ty);
      hide EntryLess;
      var t := InsertEntry(e, s[1..]);
      InsertKeepsOrder(e, s[1..], ty);
      assert s == [s[0]] + s[1..];
      assert multiset(s) == multiset{s[0]} + multiset(s[1..]);
      forall j | 0 <= j < |t|
        ensures EntryLess(s[0], t[j])
      {
        assert t[j] in multiset(t);
        if t[j] != e {
          assert t[j] in s[1..];
        }
      }
      assert multiset([s[0]] + t) == multiset{s[0]} + multiset(t);
    }
  }

  /** Sorting entries of distinct rows in one column gives the strictly ordered permutation. */
  lemma {:induction false} SortOrders(s: seq<Entry>, ty: Type)
    requires DistinctIds(s) && OfType(s, ty)
    ensures InOrder(SortEntries(s)) && multiset(SortEntries(s)) == multiset(s)
  {
    if s != [] {
      hide *;
      var n := |s| - 1;
      var init, last, t := s[..n], s[n], SortEntries(s[..n]);
      LastApart(s, ty);
      SortUnfold(s);
      SortOrders(init, ty);
      MembersOfType(t, init, last, ty);
      InsertKeepsOrder(last, t, ty);
    }
  }

  lemma SortUnfold(s: seq<Entry>)
    requires s != []
    ensures SortEntries(s) == InsertEntry(s[|s| - 1], SortEntries(s[..|s| - 1]))
  {
  }

  lemma LastApart(s: seq<Entry>, ty: Type)
    requires s != [] && DistinctIds(s) && OfType(s, ty)
    ensures var init, last := s[..|s| - 1], s[|s| - 1];
      DistinctIds(init) && OfType(init, ty) && HasType(last.value, ty) && Misses(init, last.id) && multiset(s) == multiset(init) + multiset{last}
  {
    assert s == s[..|s| - 1] + [s[|s| - 1]];
    hide HasType;
  }

  lemma MembersOfType(t: seq<Entry>, init: seq<Entry>, last: Entry, ty: Type)
    requires OfType(init, ty) && multiset(t) == multiset(init) && Misses(init, last.id)
    ensures OfType(t, ty) && Misses(t, last.id)
  {
    hide HasType;
    forall i | 0 <= i < |t|
      ensures t[i] in init
    {
      assert t[i] in multiset(t);
    }
  }

  lemma SortMembers(s: seq<Entry>, ty: Type)
    requires DistinctIds(s) && OfType(s, ty)
    ensures InOrder(SortEntries(s)) && forall e :: e in SortEntries(s) <==> e in s
  {
    SortOrders(s, ty);
    forall e
      ensures e in SortEntries(s) <==> e in s
    {
      assert e in multiset(SortEntries(s)) <==> e in multiset(s);
    }
  }

  /** Entries that stand for cells of a typed column. */
  lemma CellsOfType(s: seq<Entry>, view: View, tag: Tag, schema: Schema, c: nat)
    requires RowsOk(view, tag, schema) && c < |schema.columns| && forall v, id :: Entry(v, id) in s <==> HasCell(view, tag, c, v, id)
    ensures OfType(s, schema.columns[c].ty)
  {
    forall i | 0 <= i < |s|
      ensures HasType(s[i].value, schema.columns[c].ty)
    {
      assert Entry(s[i].value, s[i].id) in s;
      assert HasCell(view, tag, c, s[i].value, s[i].id);
    }
  }

  // ---------------------------------------------------------------- following the rows

  /** Entries without the one of row `id` holding v. */
  function Retain(s: seq<Entry>, id: nat, v: Value): seq<Entry> {
    if s == [] then []
    else
      var n := |s| - 1;
      var rest := Retain(s[..n], id, v);
      if s[n].id == id && SameValue(s[n].value, v) then rest else rest + [s[n]]
  }

  predicate Dropped(e: Entry, id: nat, v: Value) {
    e.id == id && SameValue(e.value, v)
  }

  lemma {:induction false} RetainMembers(s: seq<Entry>, id: nat, v: Value)
    ensures forall e :: e in Retain(s, id, v) <==> e in s && !Dropped(e, id, v)
    ensures DistinctIds(s) ==> DistinctIds(Retain(s, id, v))
    ensures InOrder(s) ==> InOrder(Retain(s, id, v))
  {
    if s != [] {
      var n := |s| - 1;
      var last, rest, r := s[n], Retain(s[..n], id, v), Retain(s, id, v);
      RetainMembers(s[..n], id, v);
      assert r == if Dropped(last, id, v) then rest else rest + [last];
      hide Retain, EntryLess, Dropped;
      forall e
        ensures e in s <==> e in s[..n] || e == last
      {
        assert s == s[..n] + [last];
      }
      forall i | 0 <= i < |rest|
        ensures exists j :: 0 <= j < n && s[j] == rest[i]
      {
        assert rest[i] in s[..n];
      }
    }
  }

  /** What one changed row does to the entries of column c. */
  function EntryChange(s: seq<Entry>, ch: Change, c: nat): seq<Entry> {
    var o, v := CellOf(ch.before, c), CellOf(ch.after, c);
    if ch.after.Some? && SameValue(o, v) then s
    else
      var kept := if ch.before.Some? then Retain(s, ch.id, o) else s;
      if v == Null then kept else kept + [Entry(v, ch.id)]
  }

  function EntryChanges(s: seq<Entry>, changes: seq<Change>, c: nat): seq<Entry> {
    if changes == [] then s
    else EntryChange(EntryChanges(s, changes[..|changes| - 1], c), changes[|changes| - 1], c)
  }

  /** The entries are the non-NULL cells of column c, each row once. */
  ghost predicate Reflects(s: seq<Entry>, view: View, tag: Tag, c: nat) {
    DistinctIds(s) && forall v, id :: Entry(v, id) in s <==> HasCell(view, tag, c, v, id)
  }

  lemma EntryChangeReflects(s: seq<Entry>, view: View, tag: Tag, schema: Schema, ch: Change, cols: seq<nat>, nonces: Nonces, c: nat)
    requires Reflects(s, view, tag, c) && RowsOk(view, tag, schema) && ChangeOk(view, tag, schema, ch) && Ranged(schema, c)
    ensures Reflects(EntryChange(s, ch, c), Apply(ChangeWrites(tag, ch, cols, nonces), view), tag, c)
  {
    var w := Apply(ChangeWrites(tag, ch, cols, nonces), view);
    var r := EntryChange(s, ch, c);
    var o, u := CellOf(ch.before, c), CellOf(ch.after, c);
    hide ChangeWrites, Apply, RowsOk;
    RetainMembers(s, ch.id, o);
    forall v: Value
      ensures Entry(v, ch.id) in s <==> v != Null && v == o
    {
      assert HasCell(view, tag, c, v, ch.id) <==> v != Null && v == o;
    }
    assert !FlipsZero(ch, c);
    forall v, id: nat
      ensures Entry(v, id) in r <==> HasCell(w, tag, c, v, id)
    {
      CellAfterChange(view, tag, ch, cols, nonces, c, v, id);
    }
    EntryChangeDistinct(s, ch, c);
  }

  lemma EntryChangeDistinct(s: seq<Entry>, ch: Change, c: nat)
    requires DistinctIds(s) && forall v :: Entry(v, ch.id) in s <==> v != Null && v == CellOf(ch.before, c)
    ensures DistinctIds(EntryChange(s, ch, c))
  {
    var o, v := CellOf(ch.before, c), CellOf(ch.after, c);
    RetainMembers(s, ch.id, o);
    var kept := if ch.before.Some? then Retain(s, ch.id, o) else s;
    if !(ch.after.Some? && SameValue(o, v)) {
      forall i | 0 <= i < |kept|
        ensures kept[i].id != ch.id
      {
        assert kept[i] in kept;
        assert kept[i] == Entry(kept[i].value, kept[i].id);
      }
    }
  }

  /** Following all changed rows keeps the entries in step with the rows. */
  lemma {:induction false} EntryChangesReflect(s: seq<Entry>, view: View, tag: Tag, schema: Schema, changes: seq<Change>, n: nat,
                                               cols: seq<nat>, nonces: Nonces, c: nat)
    requires Reflects(s, view, tag, c) && RowsOk(view, tag, schema) && IndexOk(view, tag, schema) && ListsMaintained(cols, schema)
    requires ChangesOk(view, tag, schema, changes) && n <= |changes| && Ranged(schema, c)
    ensures Reflects(EntryChanges(s, changes[..n], c), Apply(ChangesWrites(tag, changes[..n], cols, nonces), view), tag, c)
    decreases n
  {
    hide RowsOk, IndexOk, ChangeWrites, Apply, ChangeOk, Reflects, EntryChange;
    if n == 0 {
      ApplyNothing(view);
    } else {
      EntryChangesReflect(s, view, tag, schema, changes, n - 1, cols, nonces, c);
      NextChange(view, tag, changes, n - 1, cols, nonces);
      ChangeStillOk(view, tag, schema, changes, n - 1, cols, nonces);
      ChangesKeepIndex(view, tag, schema, changes, n - 1, cols, nonces);
      var v := Apply(ChangesWrites(tag, changes[..n - 1], cols, nonces), view);
      assert changes[..n][..n - 1] == changes[..n - 1];
      EntryChangeReflects(EntryChanges(s, changes[..n - 1], c), v, tag, schema, changes[n - 1], cols, nonces, c);
    }
  }

  /** Pure removals keep the order. */
  lemma {:induction false} RemovalsKeepOrder(s: seq<Entry>, changes: seq<Change>, c: nat)
    requires InOrder(s) && forall i :: 0 <= i < |changes| ==> changes[i].after.None?
    ensures InOrder(EntryChanges(s, changes, c))
  {
    if changes != [] {
      var n := |changes| - 1;
      RemovalsKeepOrder(s, changes[..n], c);
      RetainMembers(EntryChanges(s, changes[..n], c), changes[n].id, CellOf(changes[n].before, c));
    }
  }

  // ---------------------------------------------------------------- entries that are not followed

  lemma {:induction false} InsertKeepsMembers(e: Entry, s: seq<Entry>)
    ensures multiset(InsertEntry(e, s)) == multiset(s) + multiset{e}
  {
    if s != [] && !EntryLess(e, s[0]) {
      InsertKeepsMembers(e, s[1..]);
      assert s == [s[0]] + s[1..];
    }
  }

  lemma {:induction false} SortKeepsMembers(s: seq<Entry>)
    ensures multiset(SortEntries(s)) == multiset(s)
  {
    if s != [] {
      var n := |s| - 1;
      var init, last := s[..n], s[n];
      assert SortEntries(s) == InsertEntry(last, SortEntries(init));
      hide *;
      SortKeepsMembers(init);
      InsertKeepsMembers(last, SortEntries(init));
      assert s == init + [last];
    }
  }

  /** An entry stays when its row is changed only by replacing the cell with the same value. */
  lemma {:induction false} EntryStays(s: seq<Entry>, changes: seq<Change>, c: nat, e: Entry)
    requires e in s
    requires forall i :: 0 <= i < |changes| && changes[i].id == e.id ==>
      changes[i].after.Some? && SameValue(CellOf(changes[i].before, c), CellOf(changes[i].after, c))
    ensures e in EntryChanges(s, changes, c)
  {
    if changes != [] {
      var n := |changes| - 1;
      EntryStays(s, changes[..n], c, e);
      RetainMembers(EntryChanges(s, changes[..n], c), changes[n].id, CellOf(changes[n].before, c));
    }
  }
}
