/**
 Storage keys as bytes: a prefix for each kind of key, keyed tags of 16 bytes, and numbers in
 big-endian order. Scanning a prefix in key order gives the rows, index entries and audit
 entries by their numbers.
 */
module KeyBytes {
  import opened NttSpec
  import opened EngineData
  import opened Tables
  import AuditChain
  import D = Digits
  import M = Modular

  // ---------------------------------------------------------------- big-endian numbers

  function BigEndian(v: nat, n: nat): (d: seq<int>)
    ensures |d| == n
    decreases n
  {
    if n == 0 then [] else BigEndian(v / 256, n - 1) + [v % 256]
  }

  /** Lexicographic order, a proper prefix coming first. */
  predicate LexLess(a: seq<int>, b: seq<int>) {
    b != [] && (a == [] || a[0] < b[0] || (a[0] == b[0] && LexLess(a[1..], b[1..])))
  }

  lemma {:induction false} LexLast(a: seq<int>, x: int, b: seq<int>, y: int)
    requires |a| == |b|
    ensures LexLess(a + [x], b + [y]) <==> LexLess(a, b) || (a == b && x < y)
  {
    if a == [] {
      assert a + [x] == [x] && b + [y] == [y];
      assert [x][1..] == [] && [y][1..] == [];
    } else {
      assert (a + [x])[1..] == a[1..] + [x] && (b + [y])[1..] == b[1..] + [y];
      LexLast(a[1..], x, b[1..], y);
      assert a == [a[0]] + a[1..] && b == [b[0]] + b[1..];
    }
  }

  lemma {:induction false} LexShared(p: seq<int>, a: seq<int>, b: seq<int>)
    ensures LexLess(p + a, p + b) <==> LexLess(a, b)
  {
    if p == [] {
      assert p + a == a && p + b == b;
    } else {
      assert (p + a)[1..] == p[1..] + a && (p + b)[1..] == p[1..] + b;
      LexShared(p[1..], a, b);
    }
  }

  lemma HighPart(v: nat, p: nat)
    requires v < 256 * p
    ensures v / 256 < p
  {
  }

  /** Main result: big-endian encodings of one length are in the order of their numbers. */
  lemma {:induction false} BigEndianOrder(v: nat, w: nat, n: nat)
    requires v < Pow(256, n) && w < Pow(256, n)
    ensures LexLess(BigEndian(v, n), BigEndian(w, n)) <==> v < w
    ensures BigEndian(v, n) == BigEndian(w, n) <==> v == w
    decreases n
  {
    if n > 0 {
      HighPart(v, Pow(256, n - 1));
      HighPart(w, Pow(256, n - 1));
      BigEndianOrder(v / 256, w / 256, n - 1);
      var a, b := BigEndian(v / 256, n - 1), BigEndian(w / 256, n - 1);
      hide BigEndian, LexLess;
      LexLast(a, v % 256, b, w % 256);
      SplitEqual(a, [v % 256], b, [w % 256]);
      BigEndianNext(v, n);
      BigEndianNext(w, n);
      assert v == 256 * (v / 256) + v % 256 && w == 256 * (w / 256) + w % 256;
    }
  }

  lemma BigEndianNext(v: nat, n: nat)
    requires n > 0
    ensures BigEndian(v, n) == BigEndian(v / 256, n - 1) + [v % 256]
  {
  }

  lemma SplitEqual(a: seq<int>, x: seq<int>, b: seq<int>, y: seq<int>)
    requires |a| == |b|
    ensures a + x == b + y <==> a == b && x == y
  {
    if a + x == b + y {
      assert (a + x)[..|a|] == a && (b + y)[..|b|] == b;
      assert (a + x)[|a|..] == x && (b + y)[|b|..] == y;
    }
  }

  // ---------------------------------------------------------------- keys

  /** The keyed tags of tables and of column values, cut to 16 bytes. */
  datatype Tagger = Tagger(ofTable: Tag -> seq<int>, ofValue: (Tag, nat, Value) -> seq<int>)

  /** Distinct names and values have distinct tags. */
  ghost predicate Ideal(t: Tagger) {
    && (forall tag :: |t.ofTable(tag)| == 16)
    && (forall tag, c, v :: |t.ofValue(tag, c, v)| == 16)
    && (forall a, b :: t.ofTable(a) == t.ofTable(b) ==> a == b)
    && (forall tag, c, v, w :: t.ofValue(tag, c, v) == t.ofValue(tag, c, w) ==> v == w)
  }

  /** Row ids, numbers and columns fit their fields. */
  predicate Fits(k: Key) {
    match k
    case Audit(n) => n < Pow(256, 8)
    case Row(_, id) => id < Pow(256, 8)
    case Index(_, c, _, id) => c < Pow(256, 2) && id < Pow(256, 8)
    case Range(_, c) => c < Pow(256, 2)
    case _ => true
  }

  const AUDIT_PREFIX: seq<int> := [97, 0]
  const CATALOG_PREFIX: seq<int> := [0, 99, 97, 116, 97, 108, 111, 103, 0]
  const SEQUENCE_PREFIX: seq<int> := [0, 115, 101, 113, 0]
  const ROW_PREFIX: seq<int> := [114, 0]
  const INDEX_PREFIX: seq<int> := [120, 0]
  const RANGE_PREFIX: seq<int> := [122, 0]
  const AUDIT_HEAD: seq<int> := [0, 97, 117, 100, 105, 116]

  function RowPrefix(t: Tagger, tag: Tag): seq<int> {
    ROW_PREFIX + t.ofTable(tag)
  }

  function ColumnPrefix(t: Tagger, tag: Tag, c: nat): seq<int> {
    INDEX_PREFIX + t.ofTable(tag) + BigEndian(c, 2)
  }

  function IndexPrefix(t: Tagger, tag: Tag, c: nat, v: Value): seq<int> {
    ColumnPrefix(t, tag, c) + t.ofValue(tag, c, v)
  }

  function Bytes(t: Tagger, k: Key): seq<int> {
    match k
    case AuditHead => AUDIT_HEAD
    case Audit(n) => AUDIT_PREFIX + BigEndian(n, 8)
    case Catalog(tag) => CATALOG_PREFIX + t.ofTable(tag)
    case Sequence(tag) => SEQUENCE_PREFIX + t.ofTable(tag)
    case Row(tag, id) => RowPrefix(t, tag) + BigEndian(id, 8)
    case Index(tag, c, v, id) => IndexPrefix(t, tag, c, v) + BigEndian(id, 8)
    case Range(tag, c) => RANGE_PREFIX + t.ofTable(tag) + BigEndian(c, 2)
  }

  /** The first two bytes tell the kinds of keys apart. */
  function Kind(k: Key): (int, int) {
    match k
    case AuditHead => (0, 97)
    case Audit(_) => (97, 0)
    case Catalog(_) => (0, 99)
    case Sequence(_) => (0, 115)
    case Row(_, _) => (114, 0)
    case Index(_, _, _, _) => (120, 0)
    case Range(_, _) => (122, 0)
  }

  lemma KindFirst(t: Tagger, k: Key)
    ensures |Bytes(t, k)| >= 2 && (Bytes(t, k)[0], Bytes(t, k)[1]) == Kind(k)
  {
    hide BigEndian;
  }

  lemma TableTags(t: Tagger, a: Tag, b: Tag)
    requires Ideal(t)
    ensures |t.ofTable(a)| == 16 && |t.ofTable(b)| == 16 && (t.ofTable(a) == t.ofTable(b) <==> a == b)
  {
  }

  lemma ValueTags(t: Tagger, tag: Tag, c: nat, v: Value, d: nat, w: Value)
    requires Ideal(t)
    ensures |t.ofValue(tag, c, v)| == 16 && |t.ofValue(tag, d, w)| == 16
    ensures c == d ==> (t.ofValue(tag, c, v) == t.ofValue(tag, d, w) <==> v == w)
  {
  }

  lemma RowPrefixes(t: Tagger, a: Tag, b: Tag)
    requires Ideal(t)
    ensures |RowPrefix(t, a)| == |RowPrefix(t, b)| == 18 && (RowPrefix(t, a) == RowPrefix(t, b) <==> a == b)
  {
    TableTags(t, a, b);
    SplitEqual(ROW_PREFIX, t.ofTable(a), ROW_PREFIX, t.ofTable(b));
  }

  lemma ColumnPrefixes(t: Tagger, a: Tag, c: nat, b: Tag, d: nat)
    requires Ideal(t) && c < Pow(256, 2) && d < Pow(256, 2)
    ensures |ColumnPrefix(t, a, c)| == |ColumnPrefix(t, b, d)| == 20
    ensures ColumnPrefix(t, a, c) == ColumnPrefix(t, b, d) <==> a == b && c == d
  {
    hide BigEndian, LexLess, Pow;
    TableTags(t, a, b);
    SplitEqual(INDEX_PREFIX, t.ofTable(a), INDEX_PREFIX, t.ofTable(b));
    SplitEqual(INDEX_PREFIX + t.ofTable(a), BigEndian(c, 2), INDEX_PREFIX + t.ofTable(b), BigEndian(d, 2));
    BigEndianOrder(c, d, 2);
  }

  lemma IndexPrefixes(t: Tagger, a: Tag, c: nat, v: Value, b: Tag, d: nat, w: Value)
    requires Ideal(t) && c < Pow(256, 2) && d < Pow(256, 2)
    ensures |IndexPrefix(t, a, c, v)| == |IndexPrefix(t, b, d, w)| == 36
    ensures IndexPrefix(t, a, c, v) == IndexPrefix(t, b, d, w) <==> a == b && c == d && v == w
  {
    hide ColumnPrefix, Pow;
    ColumnPrefixes(t, a, c, b, d);
    assert |t.ofValue(a, c, v)| == 16 && |t.ofValue(b, d, w)| == 16;
    SplitEqual(ColumnPrefix(t, a, c), t.ofValue(a, c, v), ColumnPrefix(t, b, d), t.ofValue(b, d, w));
    if a == b && c == d {
      ValueTags(t, a, c, v, d, w);
    }
  }

  // ---------------------------------------------------------------- what a prefix scan finds

  /** A prefix of the length of another key's prefix fits only if it is that prefix. */
  lemma PrefixFits(p: seq<int>, q: seq<int>, rest: seq<int>)
    requires |p| == |q|
    ensures p <= q + rest <==> p == q
  {
    assert (q + rest)[..|q|] == q;
  }

  lemma OtherKind(t: Tagger, p: seq<int>, k: Key)
    requires |p| >= 2 && (p[0], p[1]) != Kind(k)
    ensures !(p <= Bytes(t, k))
  {
    KindFirst(t, k);
  }

  lemma RowScanned(t: Tagger, tag: Tag, k: Key)
    requires Ideal(t)
    ensures RowPrefix(t, tag) <= Bytes(t, k) <==> k.Row? && k.tag == tag
  {
    hide BigEndian, Ideal;
    RowPrefixes(t, tag, tag);
    if k.Row? {
      RowPrefixes(t, tag, k.tag);
      PrefixFits(RowPrefix(t, tag), RowPrefix(t, k.tag), BigEndian(k.id, 8));
    } else {
      OtherKind(t, RowPrefix(t, tag), k);
    }
  }

  lemma IndexScanned(t: Tagger, tag: Tag, c: nat, v: Value, k: Key)
    requires Ideal(t) && c < Pow(256, 2) && Fits(k)
    ensures IndexPrefix(t, tag, c, v) <= Bytes(t, k) <==> k.Index? && k.tag == tag && k.col == c && k.value == v
  {
    hide BigEndian, Ideal, Pow;
    IndexPrefixes(t, tag, c, v, tag, c, v);
    if k.Index? {
      hide IndexPrefix;
      IndexPrefixes(t, tag, c, v, k.tag, k.col, k.value);
      PrefixFits(IndexPrefix(t, tag, c, v), IndexPrefix(t, k.tag, k.col, k.value), BigEndian(k.id, 8));
    } else {
      OtherKind(t, IndexPrefix(t, tag, c, v), k);
    }
  }

  lemma AuditScanned(t: Tagger, k: Key)
    ensures AUDIT_PREFIX <= Bytes(t, k) <==> k.Audit?
  {
    hide BigEndian;
    if k.Audit? {
      PrefixFits(AUDIT_PREFIX, AUDIT_PREFIX, BigEndian(k.number, 8));
    } else {
      OtherKind(t, AUDIT_PREFIX, k);
    }
  }

  // ---------------------------------------------------------------- scans in key order

  ghost predicate InKeyOrder(t: Tagger, keys: seq<Key>) {
    forall i, j :: 0 <= i < j < |keys| ==> LexLess(Bytes(t, keys[i]), Bytes(t, keys[j]))
  }

  function NumberOf(k: Key): nat {
    match k
    case Audit(n) => n
    case Row(_, id) => id
    case Index(_, _, _, id) => id
    case _ => 0
  }

  function Numbers(keys: seq<Key>): (r: seq<nat>)
    ensures |r| == |keys|
  {
    seq(|keys|, i requires 0 <= i < |keys| => NumberOf(keys[i]))
  }

  /** The key is this prefix followed by its number. */
  ghost predicate Numbered(t: Tagger, p: seq<int>, k: Key) {
    Bytes(t, k) == p + BigEndian(NumberOf(k), 8) && NumberOf(k) < Pow(256, 8)
  }

  /** Keys that differ only in their number are scanned by number. */
  lemma NumbersAscend(t: Tagger, p: seq<int>, keys: seq<Key>, ids: set<nat>)
    requires InKeyOrder(t, keys) && (forall i :: 0 <= i < |keys| ==> Numbered(t, p, keys[i]))
    requires forall n :: n in ids <==> exists i :: 0 <= i < |keys| && NumberOf(keys[i]) == n
    ensures Numbers(keys) == Sorted(ids)
  {
    hide BigEndian, LexLess, Bytes, NumberOf, Pow;
    var r := Numbers(keys);
    forall i, j | 0 <= i < j < |r|
      ensures r[i] < r[j]
    {
      assert Numbered(t, p, keys[i]) && Numbered(t, p, keys[j]);
      LexShared(p, BigEndian(r[i], 8), BigEndian(r[j], 8));
      BigEndianOrder(r[i], r[j], 8);
    }
    forall n | n in ids
      ensures n in r
    {
      var i :| 0 <= i < |keys| && NumberOf(keys[i]) == n;
      assert r[i] == n;
    }
    AscendingUnique(r, Sorted(ids));
  }

  ghost predicate AllFit(view: View) {
    forall k :: k in view ==> Fits(k)
  }

  /** Main result: the rows of a table are scanned by row id. */
  lemma RowScanIsSorted(t: Tagger, view: View, tag: Tag, keys: seq<Key>)
    requires Ideal(t) && AllFit(view) && InKeyOrder(t, keys)
    requires forall k :: k in keys <==> k in view && RowPrefix(t, tag) <= Bytes(t, k)
    ensures Numbers(keys) == Sorted(RowIds(view, tag))
  {
    hide Ideal, LexLess, InKeyOrder, RowPrefix, Pow;
    forall k
      ensures k in keys <==> k in view && k.Row? && k.tag == tag
    {
      RowScanned(t, tag, k);
    }
    forall i | 0 <= i < |keys|
      ensures Numbered(t, RowPrefix(t, tag), keys[i])
    {
      assert keys[i] in keys;
    }
    forall n | n in RowIds(view, tag)
      ensures exists i :: 0 <= i < |keys| && NumberOf(keys[i]) == n
    {
      assert Row(tag, n) in keys;
      var i :| 0 <= i < |keys| && keys[i] == Row(tag, n);
    }
    forall i | 0 <= i < |keys|
      ensures NumberOf(keys[i]) in RowIds(view, tag)
    {
      assert keys[i] in keys;
    }
    NumbersAscend(t, RowPrefix(t, tag), keys, RowIds(view, tag));
  }

  /** The entries of one index value are scanned by row id. */
  lemma IndexScanIsSorted(t: Tagger, view: View, tag: Tag, c: nat, v: Value, keys: seq<Key>)
    requires Ideal(t) && AllFit(view) && InKeyOrder(t, keys) && c < Pow(256, 2)
    requires forall k :: k in keys <==> k in view && IndexPrefix(t, tag, c, v) <= Bytes(t, k)
    ensures Numbers(keys) == Sorted(IndexIds(view, tag, c, v))
  {
    hide Ideal, LexLess, InKeyOrder, IndexPrefix, Pow;
    forall k
      ensures k in keys <==> k in view && k.Index? && k.tag == tag && k.col == c && k.value == v
    {
      if k in view {
        IndexScanned(t, tag, c, v, k);
      }
    }
    forall i | 0 <= i < |keys|
      ensures Numbered(t, IndexPrefix(t, tag, c, v), keys[i])
    {
      assert keys[i] in keys;
    }
    forall n | n in IndexIds(view, tag, c, v)
      ensures exists i :: 0 <= i < |keys| && NumberOf(keys[i]) == n
    {
      assert Index(tag, c, v, n) in keys;
      var i :| 0 <= i < |keys| && keys[i] == Index(tag, c, v, n);
    }
    forall i | 0 <= i < |keys|
      ensures NumberOf(keys[i]) in IndexIds(view, tag, c, v)
    {
      assert keys[i] in keys;
    }
    NumbersAscend(t, IndexPrefix(t, tag, c, v), keys, IndexIds(view, tag, c, v));
  }

  /** The audit log is scanned from genesis on. */
  lemma AuditScanIsSorted(t: Tagger, view: View, keys: seq<Key>)
    requires AllFit(view) && InKeyOrder(t, keys)
    requires forall k :: k in keys <==> k in view && AUDIT_PREFIX <= Bytes(t, k)
    ensures Numbers(keys) == Sorted(AuditChain.AuditNumbers(view))
  {
    hide LexLess, InKeyOrder, Pow;
    forall k
      ensures k in keys <==> k in view && k.Audit?
    {
      AuditScanned(t, k);
    }
    forall i | 0 <= i < |keys|
      ensures Numbered(t, AUDIT_PREFIX, keys[i])
    {
      assert keys[i] in keys;
    }
    forall n | n in AuditChain.AuditNumbers(view)
      ensures exists i :: 0 <= i < |keys| && NumberOf(keys[i]) == n
    {
      assert Audit(n) in keys;
      var i :| 0 <= i < |keys| && keys[i] == Audit(n);
    }
    forall i | 0 <= i < |keys|
      ensures NumberOf(keys[i]) in AuditChain.AuditNumbers(view)
    {
      assert keys[i] in keys;
    }
    NumbersAscend(t, AUDIT_PREFIX, keys, AuditChain.AuditNumbers(view));
  }

  // ---------------------------------------------------------------- no two keys have the same bytes

  lemma SameTail(t: Tagger, p: seq<int>, n: nat, m: nat, w: nat)
    requires n < Pow(256, w) && m < Pow(256, w)
    ensures p + BigEndian(n, w) == p + BigEndian(m, w) <==> n == m
  {
    hide BigEndian, LexLess, Pow;
    SplitEqual(p, BigEndian(n, w), p, BigEndian(m, w));
    BigEndianOrder(n, m, w);
  }

  /** Keys of tables and columns. */
  lemma TableKeysDistinct(t: Tagger, p: seq<int>, a: Tag, x: seq<int>, b: Tag, y: seq<int>)
    requires Ideal(t) && p + t.ofTable(a) + x == p + t.ofTable(b) + y
    ensures a == b && x == y
  {
    TableTags(t, a, b);
    SplitEqual(p + t.ofTable(a), x, p + t.ofTable(b), y);
    SplitEqual(p, t.ofTable(a), p, t.ofTable(b));
  }

  /** Main result: the byte layout keeps all keys apart. */
  lemma BytesInjective(t: Tagger, k: Key, l: Key)
    requires Ideal(t) && Fits(k) && Fits(l) && Bytes(t, k) == Bytes(t, l)
    ensures k == l
  {
    KindFirst(t, k);
    KindFirst(t, l);
    hide Ideal, BigEndian, Pow;
    match k
    case AuditHead =>
    case Audit(n) => SameTail(t, AUDIT_PREFIX, n, l.number, 8);
    case Catalog(tag) => TableKeysDistinct(t, CATALOG_PREFIX, tag, [], l.tag, []);
    case Sequence(tag) => TableKeysDistinct(t, SEQUENCE_PREFIX, tag, [], l.tag, []);
    case Row(tag, id) =>
      TableKeysDistinct(t, ROW_PREFIX, tag, BigEndian(id, 8), l.tag, BigEndian(l.id, 8));
      SameTail(t, [], id, l.id, 8);
    case Index(tag, c, v, id) =>
      hide IndexPrefix;
      IndexPrefixes(t, tag, c, v, l.tag, l.col, l.value);
      SplitEqual(IndexPrefix(t, tag, c, v), BigEndian(id, 8), IndexPrefix(t, l.tag, l.col, l.value), BigEndian(l.id, 8));
      SameTail(t, [], id, l.id, 8);
    case Range(tag, c) =>
      TableKeysDistinct(t, RANGE_PREFIX, tag, BigEndian(c, 2), l.tag, BigEndian(l.col, 2));
      SameTail(t, [], c, l.col, 2);
  }
}
