/** The in-memory index table store: rows kept in range value order by binary
    search, and the prefix and range queries over them. */
module Storage {
  import opened ByteStrings
  import opened SortedLists

  datatype Item = Item(rangeValue: Bytes, value: Option<Bytes>)

  /** A row of one hash value, and a table of rows. */
  type Row = seq<Item>
  type Tables = map<Bytes, map<Bytes, Row>>

  /** An index entry to write. */
  datatype Entry = Entry(table: Bytes, hash: Bytes, rangeValue: Bytes, value: Option<Bytes>)

  /** An index query. With neither bound set the whole row is read; a prefix wins over a start. */
  datatype Query = Query(table: Bytes, hash: Bytes, prefix: Option<Bytes>, start: Option<Bytes>)
  {
    predicate Scans(rangeValue: Bytes) {
      if prefix.Some? then prefix.value <= rangeValue
      else if start.Some? then !Less(rangeValue, start.value)
      else true
    }
  }

  predicate ItemBefore(a: Item, b: Item) {
    Less(a.rangeValue, b.rangeValue)
  }

  lemma ItemBeforeIsStrictOrder()
    ensures StrictOrder(ItemBefore)
  {
    forall x, y, z | Compared(x, y, z)
      ensures !ItemBefore(x, x) && (ItemBefore(x, y) && ItemBefore(y, z) ==> ItemBefore(x, z))
      ensures ItemBefore(x, z) ==> ItemBefore(x, y) || ItemBefore(y, z)
    {
      LessOrder(x.rangeValue, y.rangeValue, z.rangeValue);
    }
  }

  ghost predicate SortedRow(row: Row) {
    Sorted(ItemBefore, row)
  }

  /** The row already has an item with this range value. */
  ghost predicate Occupied(row: Row, rangeValue: Bytes) {
    exists k :: 0 <= k < |row| && row[k].rangeValue == rangeValue
  }

  /** Every row of every table is strictly sorted by range value. */
  ghost predicate Valid(tables: Tables) {
    forall t, h :: t in tables && h in tables[t] ==> SortedRow(tables[t][h])
  }

  function RowOf(tables: Tables, t: Bytes, h: Bytes): Row {
    if t in tables && h in tables[t] then tables[t][h] else []
  }

  /** The store has a row item for the entry. */
  predicate Holds(tables: Tables, e: Entry) {
    Item(e.rangeValue, e.value) in RowOf(tables, e.table, e.hash)
  }

  /** `sort.Search`: the smallest index at which a monotone predicate is true. */
  method Search(n: nat, f: int --> bool) returns (i: nat)
    requires forall k :: 0 <= k < n ==> f.requires(k)
    requires forall k, m :: 0 <= k <= m < n && f(k) ==> f(m)
    ensures i <= n
    ensures forall k :: 0 <= k < i ==> !f(k)
    ensures forall k :: i <= k < n ==> f(k)
  {
    i := SearchAny(n, f);
  }

  /** `sort.Search` on any predicate: an index at which it becomes true. */
  method SearchAny(n: nat, f: int --> bool) returns (i: nat)
    requires forall k :: 0 <= k < n ==> f.requires(k)
    ensures i <= n && (i > 0 ==> !f(i - 1)) && (i < n ==> f(i))
  {
    i := 0;
    var j := n;
    while i < j
      invariant 0 <= i <= j <= n
      invariant i > 0 ==> !f(i - 1)
      invariant j < n ==> f(j)
    {
      var h := i + (j - i) / 2;
      if !f(h) {
        i := h + 1;
      } else {
        j := h;
      }
    }
  }

  function InsertAt(row: Row, i: nat, it: Item): Row
    requires i <= |row|
  {
    row[..i] + [it] + row[i..]
  }

  /** The place a binary search finds for an item: everything before it is below the item. */
  method Place(row: Row, it: Item) returns (i: nat)
    requires SortedRow(row)
    ensures i <= |row|
    ensures forall k :: 0 <= k < |row| ==> (ItemBefore(row[k], it) <==> k < i)
  {
    ItemBeforeIsStrictOrder();
    var f := (k: int) requires 0 <= k < |row| => !ItemBefore(row[k], it);
    forall k, m | 0 <= k <= m < |row| && f(k) ensures f(m) {
      NotBelowIsMonotone(ItemBefore, row, it, k, m);
    }
    i := Search(|row|, f);
    forall k | 0 <= k < |row| ensures ItemBefore(row[k], it) <==> k < i {
      assert f(k) == !ItemBefore(row[k], it);
    }
  }

  /** Two items of one row that compare equal have one range value. */
  lemma SameRangeValue(a: Item, b: Item)
    ensures Same(ItemBefore, a, b) <==> a.rangeValue == b.rangeValue
  {
    LessTrichotomy(a.rangeValue, b.rangeValue);
  }

  /** What a write of one entry leaves behind. */
  ghost predicate Written(before: Tables, e: Entry, after: Tables) {
    && Valid(after) && after.Keys == before.Keys
    && (forall x :: Holds(after, x) <==> Holds(before, x) || x == e)
  }

  /** One iteration of BatchWrite: an ordered insert, or None for a missing table or a
      range value that is already in the row. */
  method Write(tables: Tables, e: Entry) returns (r: Option<Tables>)
    requires Valid(tables)
    ensures r.Some? ==> Written(tables, e, r.value)
    ensures r.None? <==> Refused(tables, e)
  {
    if e.table !in tables {
      return None;
    }
    var row := RowOf(tables, e.table, e.hash);
    ItemBeforeIsStrictOrder();
    assert SortedRow(row);
    var it := Item(e.rangeValue, e.value);
    var i := Place(row, it);
    if i < |row| && row[i].rangeValue == e.rangeValue {
      return None;
    }
    if i < |row| {
      SameRangeValue(row[i], it);
    }
    InsertStrict(ItemBefore, row, i, it);
    forall k | 0 <= k < |row| ensures row[k].rangeValue != e.rangeValue {
      SameRangeValue(row[k], it);
    }
    r := Some(tables[e.table := tables[e.table][e.hash := InsertAt(row, i, it)]]);
    InsertedEntry(tables, e, InsertAt(row, i, it), r.value);
  }

  lemma InsertedEntry(tables: Tables, e: Entry, row: Row, after: Tables)
    requires Valid(tables) && e.table in tables && SortedRow(row)
    requires after == tables[e.table := tables[e.table][e.hash := row]]
    requires forall it :: it in row <==>
               it in RowOf(tables, e.table, e.hash) || it == Item(e.rangeValue, e.value)
    ensures Written(tables, e, after)
  {
    forall x ensures Holds(after, x) <==> Holds(tables, x) || x == e {
      if x.table == e.table && x.hash == e.hash {
        assert RowOf(after, x.table, x.hash) == row;
      } else {
        assert RowOf(after, x.table, x.hash) == RowOf(tables, x.table, x.hash);
      }
    }
  }

  /** Where the prefix run of a sorted row begins: a row item is at or above its prefix. */
  predicate AtOrAfterPrefix(rangeValue: Bytes, p: Bytes) {
    (Less(p, rangeValue)) || p <= rangeValue
  }

  /** Where the prefix run of a sorted row is over. */
  predicate PastPrefix(rangeValue: Bytes, p: Bytes) {
    !Less(rangeValue, p) && !(p <= rangeValue)
  }

  /** Going up the order, a string stays at or after the run of a prefix, and past it. */
  lemma PrefixRun(p: Bytes, a: Bytes, b: Bytes)
    requires Less(a, b)
    ensures AtOrAfterPrefix(a, p) ==> AtOrAfterPrefix(b, p)
    ensures PastPrefix(a, p) ==> PastPrefix(b, p)
  {
    LessTrichotomy(p, a);
    if p <= a {
      PrefixNotGreater(p, a);
    }
    if Less(p, a) {
      LessTransitive(p, a, b);
    }
    if PastPrefix(a, p) {
      PrefixRunIsContiguous(p, a, b);
      if Less(b, p) {
        LessTransitive(a, b, p);
      }
    }
  }

  /** The items of a row that a query returns, in row order. */
  function Selected(row: Row, q: Query): Row {
    if row == [] then []
    else (if q.Scans(row[0].rangeValue) then [row[0]] else []) + Selected(row[1..], q)
  }

  lemma {:induction false} SelectedMembers(row: Row, q: Query)
    ensures forall it :: it in Selected(row, q) <==> it in row && q.Scans(it.rangeValue)
  {
    if row != [] {
      SelectedMembers(row[1..], q);
      assert row == [row[0]] + row[1..];
    }
  }

  /** A run of selected items between unselected ones is the selection. */
  lemma {:induction false} SelectedRun(row: Row, q: Query, i: nat, j: nat)
    requires i <= j <= |row|
    requires forall k :: 0 <= k < |row| ==> (q.Scans(row[k].rangeValue) <==> i <= k < j)
    ensures Selected(row, q) == row[i..j]
  {
    if row != [] {
      if j == 0 {
        SelectedRun(row[1..], q, 0, 0);
      } else if i == 0 {
        SelectedRun(row[1..], q, 0, j - 1);
        assert row[0..j] == [row[0]] + row[1..][0..j - 1];
      } else {
        SelectedRun(row[1..], q, i - 1, j - 1);
        assert !q.Scans(row[0].rangeValue);
        assert row[i..j] == row[1..][i - 1..j - 1];
      }
    }
  }

  /** QueryPages: the items of the row that the query scans, in order, found by two
      binary searches for a prefix and one for a start; None for a missing table. */
  method QueryPages(tables: Tables, q: Query) returns (r: Option<Row>)
    requires Valid(tables)
    ensures r == if q.table in tables then Some(Selected(RowOf(tables, q.table, q.hash), q)) else None
  {
    if q.table !in tables {
      return None;
    }
    var row := RowOf(tables, q.table, q.hash);
    assert SortedRow(row);
    if q.prefix.Some? {
      var i, j := PrefixBounds(row, q.prefix.value);
      SelectedRun(row, q, i, j);
      r := Some(row[i..j]);
      assert r.value == Selected(row, q);
    } else if q.start.Some? {
      var i := Place(row, Item(q.start.value, None));
      SelectedRun(row, q, i, |row|);
      r := Some(row[i..]);
      assert r.value == Selected(row, q);
    } else {
      SelectedRun(row, q, 0, |row|);
      r := Some(row);
      assert r.value == Selected(row, q);
    }
  }

  /** The two binary searches of a prefix query: where the run begins and where it ends. */
  method PrefixBounds(row: Row, p: Bytes) returns (i: nat, end: nat)
    requires SortedRow(row)
    ensures i <= end <= |row|
    ensures forall k :: 0 <= k < |row| ==> (p <= row[k].rangeValue <==> i <= k < end)
  {
    var f := (k: int) requires 0 <= k < |row| => AtOrAfterPrefix(row[k].rangeValue, p);
    forall k, m | 0 <= k <= m < |row| && f(k) ensures f(m) {
      if k < m {
        assert ItemBefore(row[k], row[m]);
        PrefixRun(p, row[k].rangeValue, row[m].rangeValue);
      }
    }
    i := Search(|row|, f);
    var g := (k: int) requires 0 <= k < |row| - i => PastPrefix(row[i + k].rangeValue, p);
    forall k, m | 0 <= k <= m < |row| - i && g(k) ensures g(m) {
      if k < m {
        assert ItemBefore(row[i + k], row[i + m]);
        PrefixRun(p, row[i + k].rangeValue, row[i + m].rangeValue);
      }
    }
    var j := Search(|row| - i, g);
    end := i + j;
    forall k | 0 <= k < |row| ensures p <= row[k].rangeValue <==> i <= k < end {
      var x := row[k].rangeValue;
      assert f(k) == AtOrAfterPrefix(x, p);
      if k >= i {
        assert g(k - i) == PastPrefix(x, p);
        LessTrichotomy(p, x);
      }
    }
  }

  /** The effect of a whole batch: entries are written one by one until one fails. */
  ghost predicate BatchWritten(before: Tables, batch: seq<Entry>, after: Tables, ok: bool) {
    && Valid(after) && after.Keys == before.Keys
    && (forall x :: Holds(before, x) ==> Holds(after, x))
    && (forall x :: Holds(after, x) ==> Holds(before, x) || x in batch)
    && (ok ==> forall x :: x in batch ==> Holds(after, x))
  }

  /** Why a write fails: there is no such table, or the row has the range value already. */
  ghost predicate Refused(tables: Tables, e: Entry) {
    e.table !in tables || Occupied(RowOf(tables, e.table, e.hash), e.rangeValue)
  }

  /** Two entries go to one place. */
  predicate SamePlace(e: Entry, f: Entry) {
    e.table == f.table && e.hash == f.hash && e.rangeValue == f.rangeValue
  }

  ghost predicate NoClash(batch: seq<Entry>) {
    forall m, n :: 0 <= m < n < |batch| ==> !SamePlace(batch[m], batch[n])
  }

  /** When a batch is written in full: the tables refuse none of its entries, and no two of them go
      to one place. */
  ghost predicate Acceptable(tables: Tables, batch: seq<Entry>) {
    (forall n :: 0 <= n < |batch| ==> !Refused(tables, batch[n])) && NoClash(batch)
  }

  lemma OccupiedIff(tables: Tables, e: Entry)
    ensures Occupied(RowOf(tables, e.table, e.hash), e.rangeValue) <==> exists v :: Holds(tables, e.(value := v))
  {
    var row := RowOf(tables, e.table, e.hash);
    if Occupied(row, e.rangeValue) {
      var k :| 0 <= k < |row| && row[k].rangeValue == e.rangeValue;
      assert Holds(tables, e.(value := row[k].value));
    }
    if v :| Holds(tables, e.(value := v)) {
      var k :| 0 <= k < |row| && row[k] == Item(e.rangeValue, v);
      assert row[k].rangeValue == e.rangeValue;
    }
  }

  /** What tables refuse once a batch has been written: what they refused before, and whatever goes
      to the place of one of its entries. */
  lemma RefusedLater(before: Tables, batch: seq<Entry>, after: Tables, e: Entry)
    requires BatchWritten(before, batch, after, true)
    ensures Refused(after, e) <==> Refused(before, e) || exists m :: 0 <= m < |batch| && SamePlace(batch[m], e)
  {
    OccupiedIff(before, e);
    OccupiedIff(after, e);
    if v :| Holds(after, e.(value := v)) {
      var x := e.(value := v);
      if !Holds(before, x) {
        var m :| 0 <= m < |batch| && batch[m] == x;
        assert SamePlace(batch[m], e);
      }
    }
    if m :| 0 <= m < |batch| && SamePlace(batch[m], e) {
      assert batch[m] in batch && batch[m] == e.(value := batch[m].value);
    }
  }

  /** So one more entry is acceptable exactly when the tables as they have become take it. */
  lemma AcceptableOneMore(before: Tables, batch: seq<Entry>, n: nat, after: Tables)
    requires n < |batch| && BatchWritten(before, batch[..n], after, true) && Acceptable(before, batch[..n])
    ensures Acceptable(before, batch[..n + 1]) <==> !Refused(after, batch[n])
    ensures Refused(after, batch[n]) ==> !Acceptable(before, batch)
  {
    var done, more := batch[..n], batch[..n + 1];
    RefusedLater(before, done, after, batch[n]);
    assert more == done + [batch[n]];
    NoClashAppend(done, [batch[n]]);
    if !Acceptable(before, more) {
      NoClashPrefix(batch, n + 1);
      assert forall k :: 0 <= k < |more| ==> more[k] == batch[k];
    }
  }

  /** Some entry of the one list goes to the place of an entry of the other. */
  ghost predicate Clash(a: seq<Entry>, b: seq<Entry>) {
    exists m, n :: 0 <= m < |a| && 0 <= n < |b| && SamePlace(a[m], b[n])
  }

  lemma NoClashAppend(a: seq<Entry>, b: seq<Entry>)
    ensures NoClash(a + b) <==> NoClash(a) && NoClash(b) && !Clash(a, b)
  {
    var s := a + b;
    if NoClash(s) {
      NoClashPrefix(s, |a|);
      assert s[..|a|] == a;
      forall m, n | 0 <= m < |a| && 0 <= n < |b| ensures !SamePlace(a[m], b[n]) {
        assert !SamePlace(s[m], s[|a| + n]);
      }
      forall m, n | 0 <= m < n < |b| ensures !SamePlace(b[m], b[n]) {
        assert !SamePlace(s[|a| + m], s[|a| + n]);
      }
    }
    if NoClash(a) && NoClash(b) && !Clash(a, b) {
      forall m, n | 0 <= m < n < |s| ensures !SamePlace(s[m], s[n]) {
        if m < |a| <= n {
          assert !SamePlace(a[m], b[n - |a|]);
        }
      }
    }
  }

  lemma NoClashPrefix(s: seq<Entry>, n: nat)
    requires n <= |s|
    ensures NoClash(s) ==> NoClash(s[..n])
  {
  }

  /** The store itself: what MockStorage keeps behind its lock. */
  class MockStorage {
    var tables: Tables

    constructor (names: set<Bytes>)
      ensures Valid(tables) && tables.Keys == names
      ensures forall x :: !Holds(tables, x)
    {
      tables := map n | n in names :: map[];
    }

    /** BatchWrite: stops at the first missing table or repeated range value. */
    method BatchWrite(batch: seq<Entry>) returns (ok: bool)
      requires Valid(tables)
      modifies this
      ensures BatchWritten(old(tables), batch, tables, ok)
      ensures ok <==> Acceptable(old(tables), batch)
      ensures !ok ==> exists n :: 0 <= n < |batch| && StoppedAt(old(tables), batch, n, tables)
    {
      for n := 0 to |batch|
        invariant Valid(tables) && BatchWritten(old(tables), batch[..n], tables, true)
        invariant Acceptable(old(tables), batch[..n])
      {
        AcceptableOneMore(old(tables), batch, n, tables);
        var w := Write(tables, batch[n]);
        if w.None? {
          assert StoppedAt(old(tables), batch, n, tables);
          return false;
        }
        WrittenOneMore(old(tables), batch, n, tables, w.value);
        tables := w.value;
      }
      assert batch[..|batch|] == batch;
      ok := true;
    }
  }

  lemma WrittenOneMore(before: Tables, batch: seq<Entry>, n: nat, tables: Tables, after: Tables)
    requires n < |batch| && BatchWritten(before, batch[..n], tables, true) && Written(tables, batch[n], after)
    ensures BatchWritten(before, batch[..n + 1], after, true)
  {
    assert batch[..n + 1] == batch[..n] + [batch[n]];
  }

  /** A failed batch: its first `n` entries were written, and the next was refused. */
  ghost predicate StoppedAt(before: Tables, batch: seq<Entry>, n: nat, after: Tables)
    requires n < |batch|
  {
    BatchWritten(before, batch[..n], after, true) && Acceptable(before, batch[..n]) && Refused(after, batch[n])
  }
}
