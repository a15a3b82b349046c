/** Choosing an access path for a predicate, and why every path finds the rows of a full scan. */
module Queries {
  import opened Wrappers
  import opened EngineData
  import opened Predicates
  import opened Tables

  // ---------------------------------------------------------------- access paths

  function PrimaryFrom(columns: seq<Column>, i: nat): (r: Option<nat>)
    requires i <= |columns|
    ensures r.Some? ==> i <= r.value < |columns| && columns[r.value].primaryKey
    ensures r.None? ==> forall j :: i <= j < |columns| ==> !columns[j].primaryKey
    decreases |columns| - i
  {
    if i == |columns| then None else if columns[i].primaryKey then Some(i) else PrimaryFrom(columns, i + 1)
  }

  function PrimaryColumn(schema: Schema): (r: Option<nat>)
    ensures r.Some? ==> IsPrimary(schema, r.value)
    ensures r.None? ==> forall j :: 0 <= j < |schema.columns| ==> !schema.columns[j].primaryKey
  {
    PrimaryFrom(schema.columns, 0)
  }

  datatype Pinned = Pinned(col: nat, value: Value)

  /** The first CREATE INDEX column from i on that the predicate pins to a value. */
  function IndexedFrom(f: Filter, columns: seq<Column>, i: nat): (r: Option<Pinned>)
    requires i <= |columns|
    ensures r.Some? ==> r.value.col < |columns| && columns[r.value.col].indexed && EqValueFor(f, r.value.col) == Some(r.value.value)
    decreases |columns| - i
  {
    if i == |columns| then None
    else if columns[i].indexed && EqValueFor(f, i).Some? then Some(Pinned(i, EqValueFor(f, i).value))
    else IndexedFrom(f, columns, i + 1)
  }

  /** The primary key if it is pinned, else the first pinned indexed column. */
  function PickIndex(f: Filter, schema: Schema): (r: Option<Pinned>)
    ensures r.Some? ==> Maintained(schema, r.value.col) && EqValueFor(f, r.value.col) == Some(r.value.value)
  {
    var pk := PrimaryColumn(schema);
    if pk.Some? && EqValueFor(f, pk.value).Some? then Some(Pinned(pk.value, EqValueFor(f, pk.value).value))
    else IndexedFrom(f, schema.columns, 0)
  }

  datatype Bounded = Bounded(col: nat, bound: Bound)

  function RangedFrom(f: Filter, columns: seq<Column>, i: nat): (r: Option<Bounded>)
    requires i <= |columns|
    ensures r.Some? ==> r.value.col < |columns| && columns[r.value.col].rangeIndexed
    ensures r.Some? ==> RangeBoundFor(f, r.value.col) == Some(r.value.bound)
    decreases |columns| - i
  {
    if i == |columns| then None
    else if columns[i].rangeIndexed && RangeBoundFor(f, i).Some? then Some(Bounded(i, RangeBoundFor(f, i).value))
    else RangedFrom(f, columns, i + 1)
  }

  function PickRange(f: Filter, schema: Schema): (r: Option<Bounded>)
    ensures r.Some? ==> Ranged(schema, r.value.col) && RangeBoundFor(f, r.value.col) == Some(r.value.bound)
  {
    RangedFrom(f, schema.columns, 0)
  }

  /** The row ids of the blob entries that satisfy the bound, in blob order. */
  function RangeHits(entries: seq<Entry>, b: Bound): seq<nat> {
    if entries == [] then []
    else
      var n := |entries| - 1;
      var rest := RangeHits(entries[..n], b);
      if Holds(b.op, Predicates.Compare(entries[n].value, b.value)) then rest + [entries[n].id] else rest
  }

  /** The rows a filtered statement looks at: by equality index, by range blob, or all of them. */
  function CandidateRows(view: View, tag: Tag, schema: Schema, filter: Option<Filter>): Result<seq<Found>, Error> {
    if filter.Some? && PickIndex(filter.value, schema).Some? then
      var p := PickIndex(filter.value, schema).value;
      var ids :- IndexRowIds(view, tag, p.col, p.value);
      FetchAll(view, tag, ids)
    else if filter.Some? && PickRange(filter.value, schema).Some? then
      var p := PickRange(filter.value, schema).value;
      var entries :- LoadRange(view, tag, p.col);
      FetchAll(view, tag, RangeHits(entries, p.bound))
    else FetchAll(view, tag, Sorted(RowIds(view, tag)))
  }

  function RowMatches(filter: Option<Filter>, cells: Cells): Result<bool, Error> {
    if filter.None? then Success(true)
    else if Fits(filter.value, |cells|) then Matches(filter.value, cells)
    else Failure(CorruptError)
  }

  /** The rows that satisfy the whole predicate; the first evaluation error stops the statement. */
  function Select(found: seq<Found>, filter: Option<Filter>): Result<seq<Found>, Error> {
    if found == [] then Success([])
    else
      var n := |found| - 1;
      var rest :- Select(found[..n], filter);
      var m :- RowMatches(filter, found[n].cells);
      Success(if m then rest + [found[n]] else rest)
  }

  /** What UPDATE, DELETE and SELECT work on. */
  function MatchingRows(view: View, tag: Tag, schema: Schema, filter: Option<Filter>): Result<seq<Found>, Error> {
    var found :- CandidateRows(view, tag, schema, filter);
    Select(found, filter)
  }

  /** The reference: filter every row, in row order. */
  function ScannedRows(view: View, tag: Tag, filter: Option<Filter>): Result<seq<Found>, Error> {
    var found :- FetchAll(view, tag, Sorted(RowIds(view, tag)));
    Select(found, filter)
  }

  // ---------------------------------------------------------------- ids that match

  ghost predicate ComparableOption(filter: Option<Filter>, schema: Schema) {
    filter.Some? ==> Fits(filter.value, |schema.columns|) && Comparable(filter.value, schema)
  }

  /** A literal looked up in the equality index has the type of its column. */
  ghost predicate PinnedTyped(filter: Option<Filter>, schema: Schema) {
    filter.Some? && PickIndex(filter.value, schema).Some? ==>
      var p := PickIndex(filter.value, schema).value;
      HasType(p.value, schema.columns[p.col].ty)
  }

  predicate IsMatch(view: View, tag: Tag, filter: Option<Filter>, id: nat) {
    Row(tag, id) in view && RowMatches(filter, Contents(view, tag, id)) == Success(true)
  }

  function MatchIds(view: View, tag: Tag, filter: Option<Filter>, ids: seq<nat>): seq<nat> {
    if ids == [] then []
    else
      var n := |ids| - 1;
      var rest := MatchIds(view, tag, filter, ids[..n]);
      if IsMatch(view, tag, filter, ids[n]) then rest + [ids[n]] else rest
  }

  function RowsOf(view: View, tag: Tag, ids: seq<nat>): (r: seq<Found>)
    ensures |r| == |ids|
  {
    seq(|ids|, i requires 0 <= i < |ids| => Found(ids[i], Contents(view, tag, ids[i])))
  }

  lemma RowsOfAppend(view: View, tag: Tag, ids: seq<nat>, id: nat)
    ensures RowsOf(view, tag, ids + [id]) == RowsOf(view, tag, ids) + [Found(id, Contents(view, tag, id))]
  {
  }

  /** The predicate can be evaluated on the row. */
  predicate Evaluates(filter: Option<Filter>, cells: Cells) {
    RowMatches(filter, cells).Success?
  }

  /** It can be evaluated on the listed rows that are stored. */
  ghost predicate AllEvaluate(view: View, tag: Tag, filter: Option<Filter>, ids: seq<nat>) {
    forall id :: id in ids && Row(tag, id) in view ==> Evaluates(filter, Contents(view, tag, id))
  }

  ghost predicate EveryRowEvaluates(view: View, tag: Tag, filter: Option<Filter>) {
    forall id :: Row(tag, id) in view ==> Evaluates(filter, Contents(view, tag, id))
  }

  /** The one error that evaluation gives on the rows of a schema. */
  function EvalError(filter: Option<Filter>, schema: Schema): Error {
    if filter.Some? && Fits(filter.value, |schema.columns|) then TypeError else CorruptError
  }

  lemma RowError(filter: Option<Filter>, schema: Schema, cells: Cells)
    requires Typed(cells, schema) && !Evaluates(filter, cells)
    ensures RowMatches(filter, cells) == Failure(EvalError(filter, schema))
  {
    if Fits(filter.value, |cells|) {
      EvalFails(filter.value, cells);
    }
  }

  lemma ComparableEvaluates(view: View, tag: Tag, schema: Schema, filter: Option<Filter>)
    requires RowsOk(view, tag, schema) && ComparableOption(filter, schema)
    ensures EveryRowEvaluates(view, tag, filter)
  {
    forall id | Row(tag, id) in view
      ensures Evaluates(filter, Contents(view, tag, id))
    {
      if filter.Some? {
        ComparableNeverFails(filter.value, Contents(view, tag, id), schema);
      }
    }
  }

  /** Selecting from fetched rows is selecting ids, or fails if any fetched row does. */
  lemma {:induction false} SelectIsMatch(view: View, tag: Tag, schema: Schema, filter: Option<Filter>, ids: seq<nat>)
    requires RowsOk(view, tag, schema)
    ensures Select(Present(view, tag, ids), filter)
         == if AllEvaluate(view, tag, filter, ids) then Success(RowsOf(view, tag, MatchIds(view, tag, filter, ids)))
            else Failure(EvalError(filter, schema))
  {
    if ids != [] {
      var n := |ids| - 1;
      var p, id := Present(view, tag, ids[..n]), ids[n];
      SelectIsMatch(view, tag, schema, filter, ids[..n]);
      assert ids == ids[..n] + [id];
      assert AllEvaluate(view, tag, filter, ids) <==>
        AllEvaluate(view, tag, filter, ids[..n]) && (Row(tag, id) in view ==> Evaluates(filter, Contents(view, tag, id)));
      hide AllEvaluate, RowMatches, RowsOf, RowsOk, Contents, EvalError;
      if Row(tag, id) in view {
        assert (p + [Found(id, Contents(view, tag, id))])[..|p|] == p;
        if !Evaluates(filter, Contents(view, tag, id)) {
          StoredTyped(view, tag, schema, id);
          RowError(filter, schema, Contents(view, tag, id));
        }
        RowsOfAppend(view, tag, MatchIds(view, tag, filter, ids[..n]), id);
      }
    } else {
      assert Present(view, tag, ids) == [];
    }
  }

  lemma StoredTyped(view: View, tag: Tag, schema: Schema, id: nat)
    requires RowsOk(view, tag, schema) && Row(tag, id) in view
    ensures Typed(Contents(view, tag, id), schema)
  {
  }

  predicate NoRepeats(s: seq<nat>) {
    forall i, j :: 0 <= i < j < |s| ==> s[i] != s[j]
  }

  lemma {:induction false} MatchIdsMembers(view: View, tag: Tag, filter: Option<Filter>, ids: seq<nat>)
    ensures forall x :: x in MatchIds(view, tag, filter, ids) <==> x in ids && IsMatch(view, tag, filter, x)
    ensures Ascending(ids) ==> Ascending(MatchIds(view, tag, filter, ids))
    ensures NoRepeats(ids) ==> NoRepeats(MatchIds(view, tag, filter, ids))
  {
    if ids != [] {
      var n := |ids| - 1;
      var rest, last := MatchIds(view, tag, filter, ids[..n]), ids[n];
      MatchIdsMembers(view, tag, filter, ids[..n]);
      assert MatchIds(view, tag, filter, ids) == if IsMatch(view, tag, filter, last) then rest + [last] else rest;
      hide MatchIds, IsMatch;
      assert ids == ids[..n] + [last];
      forall i | 0 <= i < |rest|
        ensures exists j :: 0 <= j < n && ids[j] == rest[i]
      {
        assert rest[i] in ids[..n];
      }
    }
  }

  lemma RowsOfConcat(view: View, tag: Tag, a: seq<nat>, b: seq<nat>)
    ensures RowsOf(view, tag, a + b) == RowsOf(view, tag, a) + RowsOf(view, tag, b)
  {
  }

  /** Two lists without repeats and with the same members give the same multiset of rows. */
  lemma {:induction false} SameRows(view: View, tag: Tag, a: seq<nat>, b: seq<nat>)
    requires NoRepeats(a) && NoRepeats(b) && forall x :: x in a <==> x in b
    ensures multiset(RowsOf(view, tag, a)) == multiset(RowsOf(view, tag, b))
    decreases |a|
  {
    if a == [] {
      EmptyOrMember(b);
    } else {
      var n := |a| - 1;
      assert a[n] in b;
      var j :| 0 <= j < |b| && b[j] == a[n];
      var init, before, after := a[..n], b[..j], b[j + 1..];
      assert a == init + [a[n]] && b == before + ([a[n]] + after);
      WithoutOne(init, before, after, a[n]);
      hide *;
      SameRows(view, tag, init, before + after);
      RowsOfConcat(view, tag, init, [a[n]]);
      RowsOfConcat(view, tag, before, [a[n]] + after);
      RowsOfConcat(view, tag, [a[n]], after);
      RowsOfConcat(view, tag, before, after);
      MoveToEnd(RowsOf(view, tag, init), RowsOf(view, tag, [a[n]]), RowsOf(view, tag, before), RowsOf(view, tag, after));
    }
  }

  lemma MoveToEnd(init: seq<Found>, x: seq<Found>, before: seq<Found>, after: seq<Found>)
    requires multiset(init) == multiset(before + after)
    ensures multiset(init + x) == multiset(before + (x + after))
  {
  }

  lemma WithoutOne(init: seq<nat>, before: seq<nat>, after: seq<nat>, x: nat)
    requires NoRepeats(init + [x]) && NoRepeats(before + ([x] + after))
    requires forall y :: y in init + [x] <==> y in before + ([x] + after)
    ensures NoRepeats(init) && NoRepeats(before + after) && forall y :: y in init <==> y in before + after
  {
    var a, b := init + [x], before + ([x] + after);
    forall i | 0 <= i < |init| ensures init[i] != x { assert a[i] != a[|init|]; }
    forall i | 0 <= i < |before| ensures before[i] != x { assert b[i] != b[|before|]; }
    forall i | 0 <= i < |after| ensures after[i] != x { assert b[|before|] != b[|before| + 1 + i]; }
    forall i, j | 0 <= i < j < |before + after|
      ensures (before + after)[i] != (before + after)[j]
    {
      var i', j' := if i < |before| then i else i + 1, if j < |before| then j else j + 1;
      assert b[i'] == (before + after)[i] && b[j'] == (before + after)[j];
    }
    forall i, j | 0 <= i < j < |init|
      ensures init[i] != init[j]
    {
      assert a[i] != a[j];
    }
    forall y
      ensures y in init <==> y in before + after
    {
      assert y in a <==> y in init || y == x;
      assert y in b <==> y in before + after || y == x;
    }
  }

  // ---------------------------------------------------------------- the paths agree

  /** Every match is among the ids the equality index lists. */
  lemma IndexCoversMatches(view: View, tag: Tag, schema: Schema, f: Filter, p: Pinned, id: nat)
    requires RowsOk(view, tag, schema) && IndexOk(view, tag, schema) && PinnedTyped(Some(f), schema)
    requires PickIndex(f, schema) == Some(p) && IsMatch(view, tag, Some(f), id)
    ensures Index(tag, p.col, p.value, id) in view
  {
    var cells := Contents(view, tag, id);
    EqValueImplied(f, p.col, cells);
    EqValueExact(f, p.col, cells, schema);
    assert HasCell(view, tag, p.col, p.value, id);
  }

  ghost predicate Hit(entries: seq<Entry>, b: Bound, id: nat) {
    exists e :: e in entries && e.id == id && Holds(b.op, Predicates.Compare(e.value, b.value))
  }

  lemma {:induction false} RangeHitsMembers(entries: seq<Entry>, b: Bound)
    ensures forall id :: id in RangeHits(entries, b) <==> Hit(entries, b, id)
    ensures DistinctIds(entries) ==> NoRepeats(RangeHits(entries, b))
  {
    if entries != [] {
      var n := |entries| - 1;
      var last, rest := entries[n], RangeHits(entries[..n], b);
      RangeHitsMembers(entries[..n], b);
      var hit := Holds(b.op, Predicates.Compare(last.value, b.value));
      assert RangeHits(entries, b) == if hit then rest + [last.id] else rest;
      hide RangeHits, Holds, Predicates.Compare;
      assert entries == entries[..n] + [last];
      forall id
        ensures Hit(entries, b, id) <==> Hit(entries[..n], b, id) || (hit && last.id == id)
      {
        if hit && last.id == id {
          assert last in entries;
        }
      }
      if DistinctIds(entries) {
        forall i | 0 <= i < |rest|
          ensures rest[i] != last.id
        {
          assert rest[i] in rest;
          var e :| e in entries[..n] && e.id == rest[i];
        }
      }
    }
  }

  /** Every match is among the ids the range blob lists, once. */
  lemma RangeCoversMatches(view: View, tag: Tag, schema: Schema, f: Filter, p: Bounded, id: nat)
    requires RowsOk(view, tag, schema) && RangesOk(view, tag, schema)
    requires PickRange(f, schema) == Some(p) && IsMatch(view, tag, Some(f), id)
    ensures id in RangeHits(BlobAt(view, tag, p.col), p.bound)
  {
    var cells := Contents(view, tag, id);
    RangeBoundImplied(f, p.col, cells);
    RangeRead(view, tag, schema, p.col);
    var e := Entry(cells[p.col], id);
    assert HasCell(view, tag, p.col, e.value, id);
    assert e in BlobAt(view, tag, p.col);
    assert Hit(BlobAt(view, tag, p.col), p.bound, id);
    RangeHitsMembers(BlobAt(view, tag, p.col), p.bound);
  }

  /** Which access path the predicate takes. */
  predicate UsesRange(filter: Option<Filter>, schema: Schema) {
    filter.Some? && PickIndex(filter.value, schema).None? && PickRange(filter.value, schema).Some?
  }

  /** The ids whose rows a filtered statement looks at. */
  function CandidateIds(view: View, tag: Tag, schema: Schema, filter: Option<Filter>): seq<nat> {
    if filter.Some? && PickIndex(filter.value, schema).Some? then
      var p := PickIndex(filter.value, schema).value;
      Sorted(IndexIds(view, tag, p.col, p.value))
    else if filter.Some? && PickRange(filter.value, schema).Some? then
      var p := PickRange(filter.value, schema).value;
      RangeHits(BlobAt(view, tag, p.col), p.bound)
    else Sorted(RowIds(view, tag))
  }

  /** The predicate can be evaluated on every row that the statement looks at. */
  ghost predicate CandidatesEvaluate(view: View, tag: Tag, schema: Schema, filter: Option<Filter>) {
    AllEvaluate(view, tag, filter, CandidateIds(view, tag, schema, filter))
  }

  lemma CandidatesRead(view: View, tag: Tag, schema: Schema, filter: Option<Filter>)
    requires ContentsInv(view, tag, schema)
    ensures MatchingRows(view, tag, schema, filter)
         == if CandidatesEvaluate(view, tag, schema, filter)
            then Success(RowsOf(view, tag, MatchIds(view, tag, filter, CandidateIds(view, tag, schema, filter))))
            else Failure(EvalError(filter, schema))
  {
    hide RowsOk, IndexOk, RangesOk, PrimaryOk, SequenceOk, PickIndex, PickRange, RangeHits, MatchIds, Select, FetchAll, Present,
         RowsOf, AllEvaluate, IndexRowIds, LoadRange, EvalError;
    var ids := CandidateIds(view, tag, schema, filter);
    FetchRead(view, tag, schema, ids);
    SelectIsMatch(view, tag, schema, filter, ids);
    if filter.Some? && PickIndex(filter.value, schema).Some? {
      var p := PickIndex(filter.value, schema).value;
      IndexRead(view, tag, schema, p.col, p.value);
    } else if filter.Some? && PickRange(filter.value, schema).Some? {
      RangeRead(view, tag, schema, PickRange(filter.value, schema).value.col);
    }
  }

  lemma ScanRead(view: View, tag: Tag, schema: Schema, filter: Option<Filter>)
    requires RowsOk(view, tag, schema)
    ensures var ids := MatchIds(view, tag, filter, Sorted(RowIds(view, tag)));
      && Ascending(ids) && (forall x :: x in ids <==> IsMatch(view, tag, filter, x))
      && ScannedRows(view, tag, filter)
         == if EveryRowEvaluates(view, tag, filter) then Success(RowsOf(view, tag, ids)) else Failure(EvalError(filter, schema))
  {
    var all := Sorted(RowIds(view, tag));
    FetchRead(view, tag, schema, all);
    SelectIsMatch(view, tag, schema, filter, all);
    MatchIdsMembers(view, tag, filter, all);
    assert AllEvaluate(view, tag, filter, all) <==> EveryRowEvaluates(view, tag, filter);
    hide MatchIds, Select, FetchAll, Present, Evaluates;
  }

  lemma ScanResult(view: View, tag: Tag, schema: Schema, filter: Option<Filter>)
    requires RowsOk(view, tag, schema) && ComparableOption(filter, schema)
    ensures var ids := MatchIds(view, tag, filter, Sorted(RowIds(view, tag)));
      ScannedRows(view, tag, filter) == Success(RowsOf(view, tag, ids)) && Ascending(ids)
      && forall x :: x in ids <==> IsMatch(view, tag, filter, x)
  {
    hide RowsOk, MatchIds, ScannedRows, RowsOf, IsMatch, ComparableOption, EvalError;
    ComparableEvaluates(view, tag, schema, filter);
    ScanRead(view, tag, schema, filter);
  }

  lemma AscendingNoRepeats(s: seq<nat>)
    requires Ascending(s)
    ensures NoRepeats(s)
  {
  }

  /** The candidates have no repeats, are in order unless read from a blob, and miss no match. */
  lemma CandidatesCover(view: View, tag: Tag, schema: Schema, filter: Option<Filter>)
    requires ContentsInv(view, tag, schema) && PinnedTyped(filter, schema)
    ensures var ids := CandidateIds(view, tag, schema, filter);
      && NoRepeats(ids) && (!UsesRange(filter, schema) ==> Ascending(ids))
      && forall id :: IsMatch(view, tag, filter, id) ==> id in ids
  {
    hide RowsOk, IndexOk, RangesOk, PrimaryOk, SequenceOk, PickIndex, PickRange, RangeHits, PinnedTyped, RowMatches, Contents;
    var ids := CandidateIds(view, tag, schema, filter);
    if filter.Some? && PickIndex(filter.value, schema).Some? {
      var p := PickIndex(filter.value, schema).value;
      forall id | IsMatch(view, tag, filter, id)
        ensures id in ids
      {
        IndexCoversMatches(view, tag, schema, filter.value, p, id);
      }
      AscendingNoRepeats(ids);
    } else if filter.Some? && PickRange(filter.value, schema).Some? {
      var p := PickRange(filter.value, schema).value;
      RangeRead(view, tag, schema, p.col);
      BlobIdsDistinct(view, tag, p.col, BlobAt(view, tag, p.col));
      RangeHitsMembers(BlobAt(view, tag, p.col), p.bound);
      forall id | IsMatch(view, tag, filter, id)
        ensures id in ids
      {
        RangeCoversMatches(view, tag, schema, filter.value, p, id);
      }
    } else {
      AscendingNoRepeats(ids);
    }
  }

  /** Every path gives what the scan gives, if the scan gives an answer at all. */
  lemma CandidatesMatch(view: View, tag: Tag, schema: Schema, filter: Option<Filter>)
    requires ContentsInv(view, tag, schema) && EveryRowEvaluates(view, tag, filter) && PinnedTyped(filter, schema)
    ensures ScannedRows(view, tag, filter).Success? && MatchingRows(view, tag, schema, filter).Success?
    ensures !UsesRange(filter, schema) ==> MatchingRows(view, tag, schema, filter) == ScannedRows(view, tag, filter)
    ensures multiset(MatchingRows(view, tag, schema, filter).value) == multiset(ScannedRows(view, tag, filter).value)
  {
    hide RowsOk, IndexOk, RangesOk, PrimaryOk, SequenceOk, PickIndex, PickRange, CandidateIds, MatchIds, RowsOf, IsMatch,
         MatchingRows, ScannedRows, Evaluates, PinnedTyped, UsesRange;
    var ids, all := CandidateIds(view, tag, schema, filter), MatchIds(view, tag, filter, Sorted(RowIds(view, tag)));
    var found := MatchIds(view, tag, filter, ids);
    ScanRead(view, tag, schema, filter);
    CandidatesRead(view, tag, schema, filter);
    CandidatesCover(view, tag, schema, filter);
    MatchIdsMembers(view, tag, filter, ids);
    AscendingNoRepeats(all);
    SameRows(view, tag, found, all);
    if !UsesRange(filter, schema) {
      AscendingUnique(found, all);
    }
  }

  /**
   Main result: when the predicate compares text with text and numbers with numbers, and the
   literal looked up in an equality index has its column's type, filtering the candidates
   gives the rows of a filtered full scan; in the same order, except by range blob, where it
   gives the same multiset.
   */
  lemma CandidatesAreScan(view: View, tag: Tag, schema: Schema, filter: Option<Filter>)
    requires ContentsInv(view, tag, schema) && ComparableOption(filter, schema) && PinnedTyped(filter, schema)
    ensures ScannedRows(view, tag, filter).Success? && MatchingRows(view, tag, schema, filter).Success?
    ensures !UsesRange(filter, schema) ==> MatchingRows(view, tag, schema, filter) == ScannedRows(view, tag, filter)
    ensures multiset(MatchingRows(view, tag, schema, filter).value) == multiset(ScannedRows(view, tag, filter).value)
  {
    ComparableEvaluates(view, tag, schema, filter);
    CandidatesMatch(view, tag, schema, filter);
  }

  // ---------------------------------------------------------------- when the paths disagree

  /** An equality lookup with a literal of another type has no candidates, whatever the rows are. */
  lemma MistypedFindsNothing(view: View, tag: Tag, schema: Schema, f: Filter, p: Pinned)
    requires RowsOk(view, tag, schema) && IndexOk(view, tag, schema)
    requires PickIndex(f, schema) == Some(p) && p.value != Null && !HasType(p.value, schema.columns[p.col].ty)
    ensures CandidateIds(view, tag, schema, Some(f)) == [] && MatchingRows(view, tag, schema, Some(f)) == Success([])
  {
    IndexRead(view, tag, schema, p.col, p.value);
    forall id
      ensures id !in IndexIds(view, tag, p.col, p.value)
    {
      CellsHaveType(view, tag, schema, p.col, p.value, id);
    }
    EmptyOrMember(Sorted(IndexIds(view, tag, p.col, p.value)));
  }

  /** Both fail alike, or both give the same rows. */
  ghost predicate SameAnswer(a: Result<seq<Found>, Error>, b: Result<seq<Found>, Error>) {
    if a.Failure? || b.Failure? then a == b else multiset(a.value) == multiset(b.value)
  }

  /**
   Main result, for every predicate on every right table: exactly when a statement answers as
   the scan does. If every row can be evaluated: when the literal it looks up has its column's
   type, or no row matches. If not: when one of its candidates cannot be evaluated either.
   */
  lemma AccessPathExact(view: View, tag: Tag, schema: Schema, filter: Option<Filter>)
    requires ContentsInv(view, tag, schema)
    ensures ScannedRows(view, tag, filter).Success? <==> EveryRowEvaluates(view, tag, filter)
    ensures MatchingRows(view, tag, schema, filter).Success? <==> CandidatesEvaluate(view, tag, schema, filter)
    ensures SameAnswer(MatchingRows(view, tag, schema, filter), ScannedRows(view, tag, filter))
        <==> if EveryRowEvaluates(view, tag, filter)
             then PinnedTyped(filter, schema) || forall id :: !IsMatch(view, tag, filter, id)
             else !CandidatesEvaluate(view, tag, schema, filter)
  {
    hide RowsOk, IndexOk, RangesOk, PrimaryOk, SequenceOk, PickIndex, PickRange, MatchingRows, ScannedRows, CandidateIds, MatchIds, IsMatch,
         EvalError, AllEvaluate, Evaluates;
    ScanRead(view, tag, schema, filter);
    CandidatesRead(view, tag, schema, filter);
    if EveryRowEvaluates(view, tag, filter) {
      if PinnedTyped(filter, schema) {
        CandidatesMatch(view, tag, schema, filter);
      } else {
        var all := MatchIds(view, tag, filter, Sorted(RowIds(view, tag)));
        MistypedFindsNothing(view, tag, schema, filter.value, PickIndex(filter.value, schema).value);
        NothingOnly(RowsOf(view, tag, all));
        EmptyOrMember(all);
      }
    }
  }

  lemma NothingOnly(rows: seq<Found>)
    ensures multiset(rows) == multiset{} <==> rows == []
  {
    if rows != [] {
      assert rows[0] in multiset(rows);
    }
  }

  lemma CellsHaveType(view: View, tag: Tag, schema: Schema, c: nat, v: Value, id: nat)
    requires RowsOk(view, tag, schema) && c < |schema.columns| && !HasType(v, schema.columns[c].ty)
    ensures !HasCell(view, tag, c, v, id)
  {
  }

  /** A table with one INT primary key column and one row, holding 1. */
  function OneRowSchema(): Schema {
    Schema("t", [Column("a", IntType, true, false, false)])
  }

  function OneRow(tag: Tag): View {
    map[Catalog(tag) := Sealed(CatalogCipher(tag.master), 0, SchemaPlain(OneRowSchema()), Catalog(tag)),
        Sequence(tag) := Sealed(TableCipher(tag), 0, SequencePlain(1), Sequence(tag)),
        Row(tag, 0) := Sealed(TableCipher(tag), 0, RowPlain([Int(1)]), Row(tag, 0)),
        Index(tag, 0, Int(1), 0) := Sealed(TableCipher(tag), 0, Marker, Index(tag, 0, Int(1), 0))]
  }

  lemma OneRowValid(tag: Tag)
    requires tag.table == "t"
    ensures TableInv(OneRow(tag), tag) && SchemaAt(OneRow(tag), tag) == OneRowSchema()
    ensures forall id :: Row(tag, id) in OneRow(tag) <==> id == 0
    ensures Contents(OneRow(tag), tag, 0) == [Int(1)]
  {
    var view, schema := OneRow(tag), OneRowSchema();
    assert Contents(view, tag, 0) == [Int(1)];
    assert forall c: nat, v, id: nat :: HasCell(view, tag, c, v, id) <==> c == 0 && v == Int(1) && id == 0;
    assert RangesOk(view, tag, schema);
  }

  /** The row holding 1 as the scan reads it. */
  lemma OneRowScan(tag: Tag, f: Filter)
    requires tag.table == "t" && f == CompareCol(0, Eq, Real(1.0))
    ensures ScannedRows(OneRow(tag), tag, Some(f)) == Success([Found(0, [Int(1)])])
  {
    OneRowValid(tag);
    hide OneRow;
    var view := OneRow(tag);
    var ids := Sorted(RowIds(view, tag));
    AscendingUnique(ids, [0]);
    assert ids[..0] == [];
    FetchRead(view, tag, SchemaAt(view, tag), ids);
    assert Present(view, tag, ids) == [Found(0, [Int(1)])];
    assert [Found(0, [Int(1)])][..0] == [];
    assert RowMatches(Some(f), [Int(1)]) == Success(true);
  }

  /** Queried with the literal 1.0, the scan finds the row and the index does not. */
  lemma MistypedLosesRows(tag: Tag, f: Filter)
    requires tag.table == "t" && f == CompareCol(0, Eq, Real(1.0))
    ensures TableInv(OneRow(tag), tag) && ComparableOption(Some(f), SchemaAt(OneRow(tag), tag))
    ensures ScannedRows(OneRow(tag), tag, Some(f)) == Success([Found(0, [Int(1)])])
    ensures MatchingRows(OneRow(tag), tag, SchemaAt(OneRow(tag), tag), Some(f)) == Success([])
  {
    OneRowValid(tag);
    OneRowScan(tag, f);
    assert PickIndex(f, OneRowSchema()) == Some(Pinned(0, Real(1.0)));
    hide OneRow;
    MistypedFindsNothing(OneRow(tag), tag, OneRowSchema(), f, Pinned(0, Real(1.0)));
  }

  /** Pinned to 2, with a comparison that no INT column can pass. */
  function PinnedClash(): Filter {
    AndF(CompareCol(0, Eq, Int(2)), CompareCol(0, Eq, Text("x")))
  }

  /** The scan refuses the comparison of 1 with text; the lookup of 2 meets no row and answers. */
  lemma LookupHidesClash(tag: Tag)
    requires tag.table == "t"
    ensures TableInv(OneRow(tag), tag) && PinnedTyped(Some(PinnedClash()), OneRowSchema())
    ensures ScannedRows(OneRow(tag), tag, Some(PinnedClash())) == Failure(TypeError)
    ensures MatchingRows(OneRow(tag), tag, OneRowSchema(), Some(PinnedClash())) == Success([])
  {
    OneRowValid(tag);
    var f, view, schema := PinnedClash(), OneRow(tag), OneRowSchema();
    assert PickIndex(f, schema) == Some(Pinned(0, Int(2)));
    assert Index(tag, 0, Int(2), 0) !in view;
    assert !Evaluates(Some(f), Contents(view, tag, 0));
    assert IndexIds(view, tag, 0, Int(2)) == {};
    hide OneRow, Evaluates;
    TableParts(view, tag);
    ScanRead(view, tag, schema, Some(f));
    CandidatesRead(view, tag, schema, Some(f));
    EmptyOrMember(CandidateIds(view, tag, schema, Some(f)));
  }
}
