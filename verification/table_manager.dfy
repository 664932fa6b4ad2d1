/** The table manager: which tables ought to exist at a time and with what throughput, and the
    sync that creates and updates them. */
module TableManager {
  import opened ByteStrings
  import opened Numerals
  import opened SortedLists
  import opened Schema

  /** Times in seconds. */
  datatype ManagerConfig = ManagerConfig(
    schema: Config,
    gracePeriod: int,
    maxChunkAge: int,
    provisionedRead: int,
    provisionedWrite: int,
    inactiveRead: int,
    inactiveWrite: int)

  datatype Desc = Desc(name: Bytes, read: int, write: int)

  function PeriodicName(c: ManagerConfig, i: int): Bytes {
    c.schema.tablePrefix + FormatSigned(i, 10)
  }

  function FirstTable(c: ManagerConfig): int
    requires c.schema.tablePeriod > 0
  {
    GoDiv(c.schema.periodicTableStart, c.schema.tablePeriod)
  }

  function LastTable(c: ManagerConfig, now: int): int
    requires c.schema.tablePeriod > 0
  {
    GoDiv(now + c.gracePeriod, c.schema.tablePeriod)
  }

  function WithThroughput(c: ManagerConfig, name: Bytes, active: bool): Desc {
    if active then Desc(name, c.provisionedRead, c.provisionedWrite) else Desc(name, c.inactiveRead, c.inactiveWrite)
  }

  /** The table before periodic ones keeps its throughput until chunks can no longer go there. */
  function LegacyTable(c: ManagerConfig, now: int): Desc
    requires c.schema.tablePeriod > 0
  {
    WithThroughput(c, c.schema.originalTableName,
                   now < FirstTable(c) * c.schema.tablePeriod + c.gracePeriod + c.maxChunkAge)
  }

  /** A periodic table has throughput from a while before its period until a while after it. */
  function PeriodicTable(c: ManagerConfig, now: int, i: int): Desc {
    var period := c.schema.tablePeriod;
    WithThroughput(c, PeriodicName(c, i),
                   i * period - c.gracePeriod <= now < i * period + period + c.gracePeriod + c.maxChunkAge)
  }

  /** The tables expected at a time: the original one alone, or it and all periodic ones up to
      the one in use when the grace period is over. */
  ghost predicate IsExpected(c: ManagerConfig, now: int, d: Desc)
    requires ValidConfig(c.schema)
  {
    if !c.schema.usePeriodicTables then d == Desc(c.schema.originalTableName, c.provisionedRead, c.provisionedWrite)
    else d == LegacyTable(c, now) || exists i :: FirstTable(c) <= i <= LastTable(c, now) && d == PeriodicTable(c, now, i)
  }

  predicate NameBefore(a: Desc, b: Desc) {
    Less(a.name, b.name)
  }

  lemma NameBeforeIsStrictOrder()
    ensures StrictOrder(NameBefore)
  {
    forall x, y, z | Compared(x, y, z)
      ensures !NameBefore(x, x) && (NameBefore(x, y) && NameBefore(y, z) ==> NameBefore(x, z))
      ensures NameBefore(x, z) ==> NameBefore(x, y) || NameBefore(y, z)
    {
      LessOrder(x.name, y.name, z.name);
    }
  }

  /** The original table is not named like a periodic one. */
  ghost predicate NamesApart(c: ManagerConfig, now: int)
    requires ValidConfig(c.schema)
  {
    c.schema.usePeriodicTables ==>
      && -TWO_63 <= FirstTable(c) && LastTable(c, now) < TWO_63
      && forall i :: FirstTable(c) <= i <= LastTable(c, now) ==> PeriodicName(c, i) != c.schema.originalTableName
  }

  lemma PeriodicNameInjective(c: ManagerConfig, i: int, j: int)
    requires -TWO_63 <= i < TWO_63 && -TWO_63 <= j < TWO_63 && PeriodicName(c, i) == PeriodicName(c, j)
    ensures i == j
  {
    var n := |c.schema.tablePrefix|;
    assert PeriodicName(c, i)[n..] == FormatSigned(i, 10);
    assert PeriodicName(c, j)[n..] == FormatSigned(j, 10);
    IntRoundTrip(i, 10);
    IntRoundTrip(j, 10);
  }

  /** calculateExpectedTables. */
  method CalculateExpectedTables(c: ManagerConfig, now: int) returns (r: seq<Desc>)
    requires ValidConfig(c.schema)
    ensures forall d :: d in r <==> IsExpected(c, now, d)
    ensures NamesApart(c, now) ==> Sorted(NameBefore, r)
  {
    if !c.schema.usePeriodicTables {
      return [Desc(c.schema.originalTableName, c.provisionedRead, c.provisionedWrite)];
    }
    var first, last := FirstTable(c), LastTable(c, now);
    var result := [LegacyTable(c, now)];
    var i := first;
    while i <= last
      invariant first <= i && (i <= last + 1 || i == first)
      invariant forall d :: d in result <==> d == LegacyTable(c, now) || exists k :: first <= k < i && d == PeriodicTable(c, now, k)
      invariant NamesApart(c, now) ==> Apart(result)
    {
      var table := PeriodicTable(c, now, i);
      if NamesApart(c, now) {
        NewName(c, now, result, i);
      }
      result := result + [table];
      i := i + 1;
    }
    NameBeforeIsStrictOrder();
    r := Sort(NameBefore, result);
    if NamesApart(c, now) {
      ApartIsSorted(result, r);
    }
  }

  /** No two tables of the list have one name. */
  ghost predicate Apart(s: seq<Desc>) {
    forall i, j :: 0 <= i < j < |s| ==> s[i].name != s[j].name
  }

  lemma NewName(c: ManagerConfig, now: int, result: seq<Desc>, i: int)
    requires ValidConfig(c.schema) && c.schema.usePeriodicTables && NamesApart(c, now) && FirstTable(c) <= i <= LastTable(c, now)
    requires forall d :: d in result <==> d == LegacyTable(c, now) || exists k :: FirstTable(c) <= k < i && d == PeriodicTable(c, now, k)
    ensures forall d :: d in result ==> d.name != PeriodicTable(c, now, i).name
  {
    forall d | d in result ensures d.name != PeriodicTable(c, now, i).name {
      if d != LegacyTable(c, now) {
        var k :| FirstTable(c) <= k < i && d == PeriodicTable(c, now, k);
        if d.name == PeriodicName(c, i) {
          PeriodicNameInjective(c, k, i);
        }
      }
    }
  }

  lemma ApartIsSorted(s: seq<Desc>, r: seq<Desc>)
    requires Apart(s) && WeaklySorted(NameBefore, r) && multiset(r) == multiset(s)
    ensures Sorted(NameBefore, r)
  {
    PermutationIsDistinct(s, r);
    forall i, j | 0 <= i < j < |r| ensures NameBefore(r[i], r[j]) {
      assert r[i] in multiset(r) && r[j] in multiset(r);
      assert r[i] in s && r[j] in s;
      LessTrichotomy(r[i].name, r[j].name);
    }
  }

  // -------------------------------------------------- enough tables, soon enough

  lemma DivBounds(t: int, period: int)
    requires t >= 0 && period > 0
    ensures (t / period) * period <= t < (t / period) * period + period
  {
  }

  lemma MulMonotone(a: int, b: int, m: int)
    requires a <= b && m > 0
    ensures a * m <= b * m
  {
  }

  /** The quotient is the one number with these bounds. */
  lemma DivUnique(t: int, period: int, i: int)
    requires t >= 0 && period > 0 && i * period <= t < i * period + period
    ensures t / period == i
  {
    DivBounds(t, period);
    if t / period < i {
      MulMonotone(t / period + 1, i, period);
    } else if t / period > i {
      MulMonotone(i + 1, t / period, period);
    }
  }

  /** Go's quotient is cut off towards zero, for negative numbers too. */
  lemma GoDivTruncates(t: int, period: int, i: int)
    requires period > 0 && i >= 0 && i * period <= t < i * period + period
    ensures GoDiv(t, period) == i && GoDiv(-t, period) == -i
  {
    DivUnique(t, period, i);
    if t == 0 && i > 0 {
      MulMonotone(1, i, period);
    }
  }

  lemma DivMonotone(s: int, t: int, period: int)
    requires 0 <= s <= t && period > 0
    ensures s / period <= t / period
  {
    if t / period + 1 <= s / period {
      DivBounds(s, period);
      DivBounds(t, period);
      MulMonotone(t / period + 1, s / period, period);
    }
  }

  /** Every table that a bucket up to the end of the grace period can name is expected. */
  lemma EveryBucketHasItsTable(c: ManagerConfig, now: int, bucketStart: int)
    requires ValidConfig(c.schema) && c.schema.periodicTableStart >= 0 && bucketStart <= now + c.gracePeriod
    ensures exists d :: IsExpected(c, now, d) && d.name == TableForBucket(c.schema, bucketStart)
  {
    if !c.schema.usePeriodicTables {
      assert IsExpected(c, now, Desc(c.schema.originalTableName, c.provisionedRead, c.provisionedWrite));
    } else if bucketStart < c.schema.periodicTableStart {
      assert IsExpected(c, now, LegacyTable(c, now));
    } else {
      var period := c.schema.tablePeriod;
      DivMonotone(c.schema.periodicTableStart, bucketStart, period);
      DivMonotone(bucketStart, now + c.gracePeriod, period);
      assert IsExpected(c, now, PeriodicTable(c, now, bucketStart / period));
    }
  }

  /** The periodic table for any time that may still be written to, from the grace period before
      now and the oldest chunks in memory to the grace period after, is expected with the
      throughput for writing. */
  lemma TablesInUseHaveThroughput(c: ManagerConfig, now: int, t: int)
    requires ValidConfig(c.schema) && c.schema.usePeriodicTables && c.schema.periodicTableStart >= 0
    requires t >= c.schema.periodicTableStart && now - c.gracePeriod - c.maxChunkAge <= t <= now + c.gracePeriod
    ensures IsExpected(c, now, Desc(TableForBucket(c.schema, t), c.provisionedRead, c.provisionedWrite))
  {
    var period := c.schema.tablePeriod;
    var i := t / period;
    DivBounds(t, period);
    DivMonotone(c.schema.periodicTableStart, t, period);
    DivMonotone(t, now + c.gracePeriod, period);
    assert PeriodicTable(c, now, i) == Desc(TableForBucket(c.schema, t), c.provisionedRead, c.provisionedWrite);
  }

  /** A time that may still be written to. */
  predicate MayBeWritten(c: ManagerConfig, now: int, t: int) {
    now - c.gracePeriod - c.maxChunkAge <= t <= now + c.gracePeriod
  }

  /** Some time that may still be written to is in the period of table `i`. */
  ghost predicate InUse(c: ManagerConfig, now: int, i: int) {
    exists t :: MayBeWritten(c, now, t) && i * c.schema.tablePeriod <= t < i * c.schema.tablePeriod + c.schema.tablePeriod
  }

  /** Some time that may still be written to is before the first periodic table. */
  ghost predicate LegacyInUse(c: ManagerConfig, now: int)
    requires c.schema.tablePeriod > 0
  {
    exists t :: MayBeWritten(c, now, t) && t < FirstTable(c) * c.schema.tablePeriod
  }

  /** A table has the throughput for writing exactly while it is in use, and else the other. */
  lemma ThroughputWhileInUse(c: ManagerConfig, now: int, i: int)
    requires c.schema.tablePeriod > 0 && c.gracePeriod >= 0 && c.maxChunkAge >= 0
    ensures PeriodicTable(c, now, i) ==
              if InUse(c, now, i) then Desc(PeriodicName(c, i), c.provisionedRead, c.provisionedWrite)
              else Desc(PeriodicName(c, i), c.inactiveRead, c.inactiveWrite)
    ensures LegacyTable(c, now) ==
              if LegacyInUse(c, now) then Desc(c.schema.originalTableName, c.provisionedRead, c.provisionedWrite)
              else Desc(c.schema.originalTableName, c.inactiveRead, c.inactiveWrite)
  {
    var oldest, start, period := now - c.gracePeriod - c.maxChunkAge, i * c.schema.tablePeriod, c.schema.tablePeriod;
    assert MayBeWritten(c, now, oldest) && MayBeWritten(c, now, now + c.gracePeriod);
    if start - c.gracePeriod <= now < start + period + c.gracePeriod + c.maxChunkAge {
      assert MayBeWritten(c, now, if oldest < start then start else oldest);
    }
  }

  /** The table of a time that may still be written is expected with the throughput for writing. */
  ghost predicate HasThroughput(c: ManagerConfig, now: int, t: int)
    requires ValidConfig(c.schema)
  {
    MayBeWritten(c, now, t) ==> IsExpected(c, now, Desc(TableForBucket(c.schema, t), c.provisionedRead, c.provisionedWrite))
  }

  /** That is so for all times exactly when the first periodic table begins at a multiple of the
      period; otherwise the original table loses its throughput too early. */
  lemma HasThroughputIff(c: ManagerConfig)
    requires c.schema.usePeriodicTables && c.schema.tablePeriod > 0 && c.schema.periodicTableStart >= 0
    requires c.gracePeriod >= 0 && c.maxChunkAge >= 0
    requires c.provisionedRead != c.inactiveRead || c.provisionedWrite != c.inactiveWrite
    requires forall i :: PeriodicName(c, i) != c.schema.originalTableName
    ensures (forall now, t :: HasThroughput(c, now, t)) <==> FirstTable(c) * c.schema.tablePeriod == c.schema.periodicTableStart
  {
    var first := FirstTable(c) * c.schema.tablePeriod;
    DivBounds(c.schema.periodicTableStart, c.schema.tablePeriod);
    if first == c.schema.periodicTableStart {
      forall now, t ensures HasThroughput(c, now, t) {
        if MayBeWritten(c, now, t) && t >= c.schema.periodicTableStart {
          TablesInUseHaveThroughput(c, now, t);
        } else if MayBeWritten(c, now, t) {
          assert IsExpected(c, now, LegacyTable(c, now));
        }
      }
    } else {
      var now := first + c.gracePeriod + c.maxChunkAge;
      assert MayBeWritten(c, now, first) && TableForBucket(c.schema, first) == c.schema.originalTableName;
      assert !HasThroughput(c, now, first);
    }
  }

  /** The tables expected, with periodic tables in use: the original one, and the table of every time
      from the first periodic table on up to the end of the grace period; each with the throughput
      for writing exactly while it is in use. */
  lemma ExpectedIff(c: ManagerConfig, now: int, d: Desc)
    requires c.schema.usePeriodicTables && c.schema.tablePeriod > 0 && c.gracePeriod >= 0 && c.maxChunkAge >= 0
    requires 0 <= c.schema.periodicTableStart <= now + c.gracePeriod
    ensures IsExpected(c, now, d) <==> IsLegacy(c, now, d) || exists t :: IsTableOfTime(c, now, t, d)
  {
    ThroughputWhileInUse(c, now, 0);
    if IsExpected(c, now, d) && d != LegacyTable(c, now) {
      var i :| FirstTable(c) <= i <= LastTable(c, now) && d == PeriodicTable(c, now, i);
      var t := TimeOfTable(c, now, i);
      ThroughputWhileInUse(c, now, i);
      assert IsTableOfTime(c, now, t, d);
    }
    if t :| IsTableOfTime(c, now, t, d) {
      ThroughputWhileInUse(c, now, t / c.schema.tablePeriod);
      DivMonotone(c.schema.periodicTableStart, t, c.schema.tablePeriod);
      DivMonotone(t, now + c.gracePeriod, c.schema.tablePeriod);
      assert d == PeriodicTable(c, now, t / c.schema.tablePeriod);
    }
  }

  ghost predicate IsLegacy(c: ManagerConfig, now: int, d: Desc)
    requires c.schema.tablePeriod > 0
  {
    && d.name == c.schema.originalTableName
    && (d.read, d.write) == if LegacyInUse(c, now) then (c.provisionedRead, c.provisionedWrite) else (c.inactiveRead, c.inactiveWrite)
  }

  ghost predicate IsTableOfTime(c: ManagerConfig, now: int, t: int, d: Desc)
    requires c.schema.tablePeriod > 0
  {
    && c.schema.periodicTableStart <= t <= now + c.gracePeriod && d.name == TableForBucket(c.schema, t)
    && (d.read, d.write) == if InUse(c, now, t / c.schema.tablePeriod) then (c.provisionedRead, c.provisionedWrite)
                            else (c.inactiveRead, c.inactiveWrite)
  }

  /** A time for every expected table. */
  lemma TimeOfTable(c: ManagerConfig, now: int, i: int) returns (t: int)
    requires c.schema.tablePeriod > 0 && 0 <= c.schema.periodicTableStart <= now + c.gracePeriod
    requires FirstTable(c) <= i <= LastTable(c, now)
    ensures c.schema.periodicTableStart <= t <= now + c.gracePeriod && t / c.schema.tablePeriod == i
  {
    var period, start, last := c.schema.tablePeriod, c.schema.periodicTableStart, now + c.gracePeriod;
    t := if i * period < start then start else i * period;
    DivBounds(start, period);
    DivBounds(last, period);
    MulMonotone(i, last / period, period);
    MulMonotone(start / period + 1, i + 1, period);
    assert i * period <= t < i * period + period;
    DivUnique(t, period, i);
  }

  /** With tables that start and turn over at midnight, the table of a day's bucket is the table
      of every time of that day. */
  lemma BucketAndTimeShareTable(c: ManagerConfig, t: int, days: int, startDay: int)
    requires c.schema.tablePeriod == days * SECONDS_IN_DAY && days > 0
    requires c.schema.periodicTableStart == startDay * SECONDS_IN_DAY && startDay >= 0 && t >= 0
    ensures ValidConfig(c.schema) && TableForBucket(c.schema, (t / SECONDS_IN_DAY) * SECONDS_IN_DAY) == TableForBucket(c.schema, t)
  {
    var day, period := t / SECONDS_IN_DAY, c.schema.tablePeriod;
    var bucket := day * SECONDS_IN_DAY;
    DivBounds(t, SECONDS_IN_DAY);
    if t >= c.schema.periodicTableStart {
      assert startDay <= day;
      var i := t / period;
      DivBounds(t, period);
      assert i * period == (i * days) * SECONDS_IN_DAY;
      assert i * days <= day;
      DivUnique(bucket, period, i);
    } else {
      assert bucket < c.schema.periodicTableStart;
    }
  }

  // -------------------------------------------------- the sync

  /** A table as the database knows it. */
  datatype Table = Table(read: int, write: int, active: bool)

  type Tables = map<Bytes, Table>

  /** Where a sorted list of names is relative to the tables that have been sorted out. */
  ghost predicate Partitioned(descs: seq<Desc>, i: nat, existing: seq<Bytes>, j: nat, toCreate: seq<Desc>, toCheck: seq<Desc>) {
    && i <= |descs| && j <= |existing|
    && (forall d :: d in toCreate <==> d in descs[..i] && d.name !in existing)
    && (forall d :: d in toCheck <==> d in descs[..i] && d.name in existing)
    && (forall x, y :: 0 <= x < j && i <= y < |descs| ==> Less(existing[x], descs[y].name))
    && (forall x, y :: 0 <= x < i && j <= y < |existing| ==> Less(descs[x].name, existing[y]))
  }

  /** partitionTables, after the existing tables have been listed and sorted. */
  method PartitionTables(descs: seq<Desc>, existing: seq<Bytes>) returns (toCreate: seq<Desc>, toCheck: seq<Desc>)
    requires Sorted(NameBefore, descs) && Sorted(Less, existing)
    ensures forall d :: d in toCreate <==> d in descs && d.name !in existing
    ensures forall d :: d in toCheck <==> d in descs && d.name in existing
    ensures Sorted(NameBefore, toCreate) && Sorted(NameBefore, toCheck)
  {
    toCreate, toCheck := [], [];
    var i, j := 0, 0;
    while i < |descs| && j < |existing|
      invariant Partitioned(descs, i, existing, j, toCreate, toCheck)
      invariant Sorted(NameBefore, toCreate) && Sorted(NameBefore, toCheck)
      decreases |descs| + |existing| - i - j
    {
      if Less(descs[i].name, existing[j]) {
        Missing(descs, i, existing, j, toCreate, toCheck);
        toCreate := toCreate + [descs[i]];
        i := i + 1;
      } else if Less(existing[j], descs[i].name) {
        Ignored(descs, i, existing, j, toCreate, toCheck);
        j := j + 1;
      } else {
        Existing(descs, i, existing, j, toCreate, toCheck);
        toCheck := toCheck + [descs[i]];
        i, j := i + 1, j + 1;
      }
    }
    while i < |descs|
      invariant Partitioned(descs, i, existing, j, toCreate, toCheck) && (i < |descs| ==> j == |existing|)
      invariant Sorted(NameBefore, toCreate) && Sorted(NameBefore, toCheck)
    {
      Missing(descs, i, existing, j, toCreate, toCheck);
      toCreate := toCreate + [descs[i]];
      i := i + 1;
    }
    assert descs[..i] == descs;
  }

  lemma EarlierDescs(descs: seq<Desc>, i: nat, some: seq<Desc>)
    requires Sorted(NameBefore, descs) && i < |descs| && Sorted(NameBefore, some) && forall d :: d in some ==> d in descs[..i]
    ensures Sorted(NameBefore, some + [descs[i]])
  {
    forall d | d in some ensures NameBefore(d, descs[i]) {
      var k :| 0 <= k < i && descs[k] == d;
    }
    SortedAppend(NameBefore, some, descs[i]);
  }

  lemma Missing(descs: seq<Desc>, i: nat, existing: seq<Bytes>, j: nat, toCreate: seq<Desc>, toCheck: seq<Desc>)
    requires Sorted(NameBefore, descs) && Sorted(Less, existing) && Partitioned(descs, i, existing, j, toCreate, toCheck)
    requires i < |descs| && (j < |existing| ==> Less(descs[i].name, existing[j])) && Sorted(NameBefore, toCreate)
    ensures Partitioned(descs, i + 1, existing, j, toCreate + [descs[i]], toCheck) && Sorted(NameBefore, toCreate + [descs[i]])
  {
    assert descs[..i + 1] == descs[..i] + [descs[i]];
    EarlierDescs(descs, i, toCreate);
    forall y | j <= y < |existing| ensures Less(descs[i].name, existing[y]) {
      if y > j {
        LessTransitive(descs[i].name, existing[j], existing[y]);
      }
    }
    forall y | 0 <= y < |existing| ensures existing[y] != descs[i].name {
      LessIrreflexive(descs[i].name);
    }
  }

  lemma Ignored(descs: seq<Desc>, i: nat, existing: seq<Bytes>, j: nat, toCreate: seq<Desc>, toCheck: seq<Desc>)
    requires Sorted(NameBefore, descs) && Partitioned(descs, i, existing, j, toCreate, toCheck)
    requires i < |descs| && j < |existing| && Less(existing[j], descs[i].name)
    ensures Partitioned(descs, i, existing, j + 1, toCreate, toCheck)
  {
    forall y | i <= y < |descs| ensures Less(existing[j], descs[y].name) {
      if y > i {
        assert NameBefore(descs[i], descs[y]);
        LessTransitive(existing[j], descs[i].name, descs[y].name);
      }
    }
  }

  lemma Existing(descs: seq<Desc>, i: nat, existing: seq<Bytes>, j: nat, toCreate: seq<Desc>, toCheck: seq<Desc>)
    requires Sorted(NameBefore, descs) && Sorted(Less, existing) && Partitioned(descs, i, existing, j, toCreate, toCheck)
    requires i < |descs| && j < |existing| && !Less(descs[i].name, existing[j]) && !Less(existing[j], descs[i].name)
    requires Sorted(NameBefore, toCheck)
    ensures Partitioned(descs, i + 1, existing, j + 1, toCreate, toCheck + [descs[i]]) && Sorted(NameBefore, toCheck + [descs[i]])
  {
    LessTrichotomy(descs[i].name, existing[j]);
    assert existing[j] in existing && descs[..i + 1] == descs[..i] + [descs[i]];
    EarlierDescs(descs, i, toCheck);
    forall y | i < y < |descs| ensures Less(existing[j], descs[y].name) {
      assert NameBefore(descs[i], descs[y]);
    }
  }

  /** The table is there with the stated capacities. */
  ghost predicate Provisioned(tables: Tables, d: Desc) {
    d.name in tables && tables[d.name].read == d.read && tables[d.name].write == d.write
  }

  ghost predicate AllProvisioned(tables: Tables, descs: seq<Desc>) {
    forall d :: d in descs ==> Provisioned(tables, d)
  }

  ghost predicate Mentions(descs: seq<Desc>, n: Bytes) {
    exists k :: 0 <= k < |descs| && descs[k].name == n
  }

  /** Tables that no description names are as they were. */
  ghost predicate OthersKept(before: Tables, descs: seq<Desc>, after: Tables) {
    forall n :: !Mentions(descs, n) ==> (n in after <==> n in before) && (n in before ==> after[n] == before[n])
  }

  /** The database: its tables, and how many calls have changed one. Calls on tables that are
      `down` fail. */
  class TableClient {
    var tables: Tables
    var changes: nat
    const startsActive: bool
    const down: Bytes -> bool

    method ListTables() returns (names: seq<Bytes>)
      ensures Distinct(names) && forall n :: n in names <==> n in tables
    {
      names := [];
      var left := tables.Keys;
      while left != {}
        invariant left <= tables.Keys && Distinct(names) && forall n :: n in names <==> n in tables && n !in left
        decreases |left|
      {
        var n :| n in left;
        names := names + [n];
        left := left - {n};
      }
    }

    method CreateTable(name: Bytes, read: int, write: int) returns (ok: bool)
      modifies this
      ensures ok == (!down(name) && name !in old(tables))
      ensures tables == if ok then old(tables)[name := Table(read, write, startsActive)] else old(tables)
      ensures changes == old(changes) + if ok then 1 else 0
    {
      if down(name) || name in tables {
        return false;
      }
      tables := tables[name := Table(read, write, startsActive)];
      changes := changes + 1;
      ok := true;
    }

    method DescribeTable(name: Bytes) returns (r: Option<Table>)
      ensures r == if down(name) || name !in tables then None else Some(tables[name])
    {
      if down(name) || name !in tables {
        return None;
      }
      r := Some(tables[name]);
    }

    method UpdateTable(name: Bytes, read: int, write: int) returns (ok: bool)
      modifies this
      ensures ok == (!down(name) && name in old(tables))
      ensures tables == if ok then old(tables)[name := old(tables)[name].(read := read, write := write)] else old(tables)
      ensures changes == old(changes) + if ok then 1 else 0
    {
      if down(name) || name !in tables {
        return false;
      }
      tables := tables[name := tables[name].(read := read, write := write)];
      changes := changes + 1;
      ok := true;
    }

    /** createTables: stops at the first failure. */
    method CreateTables(descs: seq<Desc>) returns (ok: bool)
      modifies this
      ensures Done(tables, ok) == Creating(old(tables), descs, down, startsActive)
      ensures descs == [] ==> changes == old(changes)
    {
      ok := true;
      assert descs[0..] == descs;
      for k := 0 to |descs|
        invariant Creating(tables, descs[k..], down, startsActive) == Creating(old(tables), descs, down, startsActive)
        invariant k == 0 ==> changes == old(changes)
        invariant ok
      {
        assert descs[k..][0] == descs[k] && descs[k..][1..] == descs[k + 1..];
        ok := CreateTable(descs[k].name, descs[k].read, descs[k].write);
        if !ok {
          return;
        }
      }
    }

    /** updateTables: brings active tables to their stated capacities and leaves alone those that
        are not active; stops at the first failure. */
    method UpdateTables(descs: seq<Desc>) returns (ok: bool)
      modifies this
      ensures Done(tables, ok) == Updating(old(tables), descs, down)
      ensures AllProvisioned(old(tables), descs) ==> tables == old(tables) && changes == old(changes)
    {
      ok := true;
      assert descs[0..] == descs;
      for k := 0 to |descs|
        invariant Updating(tables, descs[k..], down) == Updating(old(tables), descs, down)
        invariant AllProvisioned(old(tables), descs) ==> tables == old(tables) && changes == old(changes)
        invariant ok
      {
        var d := descs[k];
        assert descs[k..][0] == d && descs[k..][1..] == descs[k + 1..] && d in descs;
        var table := DescribeTable(d.name);
        if table.None? {
          return false;
        }
        if table.value.active && !(table.value.read == d.read && table.value.write == d.write) {
          ok := UpdateTable(d.name, d.read, d.write);
          if !ok {
            return;
          }
        } else {
          assert tables == tables[d.name := Brought(tables[d.name], d)];
        }
      }
    }
  }

  // -------------------------------------------------- what creating and updating do

  /** The tables after a number of calls, and whether all of them succeeded. */
  datatype Done = Done(tables: Tables, ok: bool)

  /** The calls of createTables, one after the other. */
  function Creating(tables: Tables, descs: seq<Desc>, down: Bytes -> bool, active: bool): Done
    decreases |descs|
  {
    if descs == [] then Done(tables, true)
    else
      var d := descs[0];
      if down(d.name) || d.name in tables then Done(tables, false)
      else Creating(tables[d.name := Table(d.read, d.write, active)], descs[1..], down, active)
  }

  function Brought(t: Table, d: Desc): Table {
    if t.active then t.(read := d.read, write := d.write) else t
  }

  /** The calls of updateTables, one after the other. */
  function Updating(tables: Tables, descs: seq<Desc>, down: Bytes -> bool): Done
    decreases |descs|
  {
    if descs == [] then Done(tables, true)
    else
      var d := descs[0];
      if down(d.name) || d.name !in tables then Done(tables, false)
      else Updating(tables[d.name := Brought(tables[d.name], d)], descs[1..], down)
  }

  /** None of the first tables is down. */
  ghost predicate AllUp(down: Bytes -> bool, descs: seq<Desc>, n: nat)
    requires n <= |descs|
  {
    forall j :: 0 <= j < n ==> !down(descs[j].name)
  }

  lemma AllUpNext(down: Bytes -> bool, descs: seq<Desc>, n: nat)
    requires 0 < n <= |descs|
    ensures AllUp(down, descs, n) <==> !down(descs[0].name) && AllUp(down, descs[1..], n - 1)
  {
    if !down(descs[0].name) && AllUp(down, descs[1..], n - 1) {
      forall j | 0 <= j < n ensures !down(descs[j].name) {
        assert j > 0 ==> descs[j] == descs[1..][j - 1];
      }
    }
  }

  lemma FirstIsAlone(descs: seq<Desc>)
    requires Sorted(NameBefore, descs) && descs != []
    ensures Sorted(NameBefore, descs[1..]) && !Mentions(descs[1..], descs[0].name)
    ensures forall n :: Mentions(descs, n) <==> n == descs[0].name || Mentions(descs[1..], n)
  {
    var rest := descs[1..];
    assert descs == [descs[0]] + rest;
    forall j | 0 <= j < |rest| ensures rest[j].name != descs[0].name {
      assert NameBefore(descs[0], descs[j + 1]);
      LessIrreflexive(descs[0].name);
    }
    forall n | Mentions(rest, n) ensures Mentions(descs, n) {
      var j :| 0 <= j < |rest| && rest[j].name == n;
      assert descs[j + 1] == rest[j];
    }
  }

  /** Missing tables are created, with their capacities, up to the first that is down, and no other
      table is touched. */
  lemma {:induction false} CreatesUpToFailure(tables: Tables, descs: seq<Desc>, down: Bytes -> bool, active: bool)
    requires Sorted(NameBefore, descs) && forall n :: Mentions(descs, n) ==> n !in tables
    ensures var r := Creating(tables, descs, down, active);
            && OthersKept(tables, descs, r.tables) && (r.ok <==> AllUp(down, descs, |descs|))
            && forall k :: 0 <= k < |descs| ==>
                 var d := descs[k];
                 if AllUp(down, descs, k + 1) then d.name in r.tables && r.tables[d.name] == Table(d.read, d.write, active)
                 else d.name !in r.tables
    decreases |descs|
  {
    if descs != [] {
      var d, rest := descs[0], descs[1..];
      var r := Creating(tables, descs, down, active);
      FirstIsAlone(descs);
      if !down(d.name) {
        CreatesUpToFailure(tables[d.name := Table(d.read, d.write, active)], rest, down, active);
        AllUpNext(down, descs, |descs|);
      }
      forall k | 0 <= k < |descs|
        ensures if AllUp(down, descs, k + 1) then descs[k].name in r.tables && r.tables[descs[k].name] == Table(descs[k].read, descs[k].write, active)
                else descs[k].name !in r.tables
      {
        AllUpNext(down, descs, k + 1);
        assert Mentions(descs, descs[k].name);
        assert k > 0 ==> descs[k] == rest[k - 1];
      }
    }
  }

  /** An existing table has its stated capacities now, or was and is not active. */
  ghost predicate Updated(before: Tables, after: Tables, d: Desc) {
    && d.name in before && d.name in after
    && after[d.name] == if before[d.name].active then Table(d.read, d.write, true) else before[d.name]
  }

  ghost predicate Unchanged(before: Tables, after: Tables, n: Bytes) {
    n in before && n in after && after[n] == before[n]
  }

  lemma NothingUpdated(tables: Tables, descs: seq<Desc>, down: Bytes -> bool)
    requires descs != [] && down(descs[0].name) && forall n :: Mentions(descs, n) ==> n in tables
    ensures forall k :: 0 <= k < |descs| ==> Unchanged(tables, tables, descs[k].name)
    ensures forall n :: 0 < n <= |descs| ==> !AllUp(down, descs, n)
  {
    assert forall k :: 0 <= k < |descs| ==> Mentions(descs, descs[k].name);
  }

  lemma UpdatedAll(tables: Tables, descs: seq<Desc>, down: Bytes -> bool, after: Tables)
    requires descs != [] && Sorted(NameBefore, descs) && !down(descs[0].name) && Updated(tables, after, descs[0])
    requires var tables', rest := tables[descs[0].name := Brought(tables[descs[0].name], descs[0])], descs[1..];
             forall k :: 0 <= k < |rest| ==>
               if AllUp(down, rest, k + 1) then Updated(tables', after, rest[k]) else Unchanged(tables', after, rest[k].name)
    ensures forall k :: 0 <= k < |descs| ==>
              if AllUp(down, descs, k + 1) then Updated(tables, after, descs[k]) else Unchanged(tables, after, descs[k].name)
  {
    forall k | 0 <= k < |descs|
      ensures if AllUp(down, descs, k + 1) then Updated(tables, after, descs[k]) else Unchanged(tables, after, descs[k].name)
    {
      if k > 0 {
        UpdatedLater(tables, descs, down, after, k);
      }
    }
  }

  lemma UpdatedLater(tables: Tables, descs: seq<Desc>, down: Bytes -> bool, after: Tables, k: nat)
    requires 0 < k < |descs| && Sorted(NameBefore, descs) && !down(descs[0].name) && descs[0].name in tables
    requires var tables' := tables[descs[0].name := Brought(tables[descs[0].name], descs[0])];
             if AllUp(down, descs[1..], k) then Updated(tables', after, descs[1..][k - 1])
             else Unchanged(tables', after, descs[1..][k - 1].name)
    ensures if AllUp(down, descs, k + 1) then Updated(tables, after, descs[k]) else Unchanged(tables, after, descs[k].name)
  {
    AllUpNext(down, descs, k + 1);
    assert NameBefore(descs[0], descs[k]);
    LessIrreflexive(descs[k].name);
  }

  /** Existing tables are updated up to the first that is down, and no other table is touched. */
  lemma {:induction false} UpdatesUpToFailure(tables: Tables, descs: seq<Desc>, down: Bytes -> bool)
    requires Sorted(NameBefore, descs) && forall n :: Mentions(descs, n) ==> n in tables
    ensures var r := Updating(tables, descs, down);
            && OthersKept(tables, descs, r.tables) && (r.ok <==> AllUp(down, descs, |descs|))
            && forall k :: 0 <= k < |descs| ==>
                 if AllUp(down, descs, k + 1) then Updated(tables, r.tables, descs[k]) else Unchanged(tables, r.tables, descs[k].name)
    decreases |descs|
  {
    if descs != [] {
      var d, rest := descs[0], descs[1..];
      var r := Updating(tables, descs, down);
      FirstIsAlone(descs);
      assert Mentions(descs, d.name);
      if !down(d.name) {
        var tables' := tables[d.name := Brought(tables[d.name], d)];
        UpdatesUpToFailure(tables', rest, down);
        AllUpNext(down, descs, |descs|);
        assert Unchanged(tables', r.tables, d.name);
        UpdatedAll(tables, descs, down, r.tables);
      } else {
        NothingUpdated(tables, descs, down);
      }
    }
  }

  /** syncTables. When it succeeds, every expected table is there with its stated capacities,
      except tables that were there but not active, which are left alone; tables that are not
      expected are never touched; and with nothing to do it changes nothing, so that after a success with
      all tables active a second sync for the same tables is a no-op. */
  method SyncTables(client: TableClient, c: ManagerConfig, now: int) returns (ok: bool)
    requires ValidConfig(c.schema) && NamesApart(c, now)
    modifies client
    ensures ok && (forall n :: n in old(client.tables) ==> old(client.tables)[n].active) ==>
              forall d :: IsExpected(c, now, d) ==> Provisioned(client.tables, d)
    ensures ok ==> forall d :: IsExpected(c, now, d) ==>
              Provisioned(client.tables, d) || Updated(old(client.tables), client.tables, d)
    ensures forall n :: (forall d :: IsExpected(c, now, d) ==> d.name != n) ==>
              (n in client.tables <==> n in old(client.tables)) && (n in old(client.tables) ==> client.tables[n] == old(client.tables)[n])
    ensures (forall d :: IsExpected(c, now, d) ==> Provisioned(old(client.tables), d)) ==>
              client.tables == old(client.tables) && client.changes == old(client.changes)
    ensures ok <==> forall d :: IsExpected(c, now, d) ==> !client.down(d.name)
    ensures (exists d :: IsExpected(c, now, d) && d.name !in old(client.tables) && client.down(d.name)) ==>
              forall n :: n in old(client.tables) ==> Unchanged(old(client.tables), client.tables, n)
  {
    var expected := CalculateExpectedTables(c, now);
    assert forall k :: 0 <= k < |expected| ==> expected[k] in expected;
    ok := SyncExpected(client, expected);
  }

  /** The rest of syncTables, for a list of expected tables. */
  method SyncExpected(client: TableClient, expected: seq<Desc>) returns (ok: bool)
    requires Sorted(NameBefore, expected)
    modifies client
    ensures ok ==> forall d :: d in expected ==> Provisioned(client.tables, d) || Updated(old(client.tables), client.tables, d)
    ensures OthersKept(old(client.tables), expected, client.tables)
    ensures AllProvisioned(old(client.tables), expected) ==>
              client.tables == old(client.tables) && client.changes == old(client.changes)
    ensures ok <==> forall d :: d in expected ==> !client.down(d.name)
    ensures (exists d :: d in expected && d.name !in old(client.tables) && client.down(d.name)) ==>
              forall n :: n in old(client.tables) ==> Unchanged(old(client.tables), client.tables, n)
  {
    var toCreate, toCheck := CompareTables(client, expected);
    NothingToCreate(client.tables, expected, toCreate, toCheck);
    CreatePhase(client.tables, expected, toCreate, client.down, client.startsActive);
    ok := client.CreateTables(toCreate);
    if !ok {
      return;
    }
    ghost var t1 := client.tables;
    CheckedKept(old(client.tables), toCreate, toCheck, t1);
    UpdatePhase(t1, expected, toCheck, client.down);
    ok := client.UpdateTables(toCheck);
    if ok {
      BothDone(old(client.tables), expected, toCreate, toCheck, t1, client.tables);
    }
  }

  /** The expected tables that are missing and those that are there. */
  method CompareTables(client: TableClient, expected: seq<Desc>) returns (toCreate: seq<Desc>, toCheck: seq<Desc>)
    requires Sorted(NameBefore, expected)
    ensures forall d :: d in toCreate <==> d in expected && d.name !in client.tables
    ensures forall d :: d in toCheck <==> d in expected && d.name in client.tables
    ensures Sorted(NameBefore, toCreate) && Sorted(NameBefore, toCheck)
  {
    var existing := client.ListTables();
    existing := SortNames(existing);
    toCreate, toCheck := PartitionTables(expected, existing);
  }

  method SortNames(names: seq<Bytes>) returns (r: seq<Bytes>)
    requires Distinct(names)
    ensures Sorted(Less, r) && forall n :: n in r <==> n in names
  {
    LessIsStrictOrder();
    r := Sort(Less, names);
    PermutationIsDistinct(names, r);
    StrictlySorted(r);
  }

  lemma Untouched(before: Tables, expected: seq<Desc>, some: seq<Desc>, after: Tables)
    requires OthersKept(before, some, after) && forall d :: d in some ==> d in expected
    ensures OthersKept(before, expected, after)
  {
    forall n | Mentions(some, n) ensures Mentions(expected, n) {
      var k :| 0 <= k < |some| && some[k].name == n;
      assert some[k] in some;
    }
  }

  lemma NothingToCreate(tables: Tables, expected: seq<Desc>, toCreate: seq<Desc>, toCheck: seq<Desc>)
    requires forall d :: d in toCreate <==> d in expected && d.name !in tables
    ensures AllProvisioned(tables, expected) ==> toCreate == []
  {
    assert toCreate != [] ==> toCreate[0] in toCreate;
  }

  lemma CreatePhase(tables: Tables, expected: seq<Desc>, toCreate: seq<Desc>, down: Bytes -> bool, active: bool)
    requires Sorted(NameBefore, toCreate) && forall d :: d in toCreate ==> d in expected && d.name !in tables
    ensures var r := Creating(tables, toCreate, down, active);
            && OthersKept(tables, toCreate, r.tables) && OthersKept(tables, expected, r.tables)
            && (r.ok <==> forall d :: d in toCreate ==> !down(d.name)) && (r.ok ==> AllProvisioned(r.tables, toCreate))
            && forall n :: n in tables ==> Unchanged(tables, r.tables, n)
  {
    assert forall k :: 0 <= k < |toCreate| ==> toCreate[k] in toCreate;
    CreatesUpToFailure(tables, toCreate, down, active);
    Untouched(tables, expected, toCreate, Creating(tables, toCreate, down, active).tables);
  }

  lemma UpdatePhase(tables: Tables, expected: seq<Desc>, toCheck: seq<Desc>, down: Bytes -> bool)
    requires Sorted(NameBefore, toCheck) && forall d :: d in toCheck ==> d in expected && d.name in tables
    ensures var r := Updating(tables, toCheck, down);
            && OthersKept(tables, toCheck, r.tables) && OthersKept(tables, expected, r.tables)
            && (r.ok <==> forall d :: d in toCheck ==> !down(d.name))
            && (r.ok ==> forall d :: d in toCheck ==> Updated(tables, r.tables, d))
  {
    assert forall k :: 0 <= k < |toCheck| ==> toCheck[k] in toCheck;
    UpdatesUpToFailure(tables, toCheck, down);
    Untouched(tables, expected, toCheck, Updating(tables, toCheck, down).tables);
  }

  /** Creating tables leaves those to be checked as they were. */
  lemma CheckedKept(before: Tables, toCreate: seq<Desc>, toCheck: seq<Desc>, after: Tables)
    requires OthersKept(before, toCreate, after)
    requires (forall d :: d in toCreate ==> d.name !in before) && (forall d :: d in toCheck ==> d.name in before)
    ensures forall d :: d in toCheck ==> d.name in after && after[d.name] == before[d.name]
    ensures AllProvisioned(before, toCheck) ==> AllProvisioned(after, toCheck)
  {
    assert forall k :: 0 <= k < |toCreate| ==> toCreate[k] in toCreate;
  }

  lemma BothDone(t0: Tables, expected: seq<Desc>, toCreate: seq<Desc>, toCheck: seq<Desc>, t1: Tables, t2: Tables)
    requires forall d :: d in expected ==> d in toCreate || d in toCheck
    requires (forall d :: d in toCreate ==> d.name !in t0) && (forall d :: d in toCheck ==> d.name in t0)
    requires AllProvisioned(t1, toCreate) && OthersKept(t1, toCheck, t2)
    requires forall d :: d in toCheck ==> d.name in t1 && t1[d.name] == t0[d.name] && Updated(t1, t2, d)
    ensures forall d :: d in expected ==> Provisioned(t2, d) || Updated(t0, t2, d)
  {
    assert forall k :: 0 <= k < |toCheck| ==> toCheck[k] in toCheck;
  }
}
