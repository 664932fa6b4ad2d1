/** Where and when: the buckets of an interval, and so the rows of a chunk, in terms of the instants
    they stand for, and the tables they are in when tables turn over at midnight. */
module BucketTables {
  import opened ByteStrings
  import opened Numerals
  import opened ExternalKeys
  import opened Storage
  import opened Schema
  import opened SchemaCoverage
  import opened Sightings
  import opened ChunkIndex
  import opened TableManager

  /** Periodic tables begin at a midnight and last whole days. */
  predicate WholeDays(cfg: Config) {
    cfg.usePeriodicTables ==>
      && cfg.tablePeriod > 0 && cfg.tablePeriod % 86400 == 0
      && cfg.periodicTableStart >= 0 && cfg.periodicTableStart % 86400 == 0
  }

  /** The bucket of an instant: of its hour under v1, of its day from v2 on, in the table of its
      time. */
  ghost predicate IsBucketOf(cfg: Config, schemas: seq<SchemaEntry>, user: Bytes, name: Bytes, t: int, b: Bucket)
    requires ValidConfig(cfg) && FromEpoch(schemas) && t >= 0
  {
    && b.version == VersionAt(schemas, t) && b.table == TableForBucket(cfg, t / 1000)
    && b.hash == user + [COLON] + (TimeName(b.version, t) + [COLON] + name)
  }

  /** The hour, or a mark and the day. */
  function TimeName(v: Version, t: nat): Bytes {
    if v == V1 then FormatSigned(t / 3_600_000, 10) else [100] + FormatSigned(t / 86_400_000, 10)
  }

  /** A time and the start of the unit it is in have one table, if the units divide its period. */
  lemma UnitAndTimeShareTable(cfg: Config, t: int, unit: int, units: int, start: int)
    requires ValidConfig(cfg) && t >= 0 && unit > 0
    requires cfg.usePeriodicTables ==> units > 0 && cfg.tablePeriod == units * unit && cfg.periodicTableStart == start * unit && start >= 0
    ensures TableForBucket(cfg, (t / unit) * unit) == TableForBucket(cfg, t)
  {
    if cfg.usePeriodicTables {
      var k, period := t / unit, cfg.tablePeriod;
      DivBounds(t, unit);
      if t >= cfg.periodicTableStart {
        if k < start {
          MulMonotone(k + 1, start, unit);
          assert false;
        }
        MulMonotone(start, k, unit);
        var i := t / period;
        DivBounds(t, period);
        assert i * period == (i * units) * unit;
        if k < i * units {
          MulMonotone(k + 1, i * units, unit);
          assert false;
        }
        MulMonotone(i * units, k, unit);
        DivUnique(k * unit, period, i);
      }
    }
  }

  /** Every time has the table of its day. */
  ghost predicate DaysShareTables(cfg: Config)
    requires ValidConfig(cfg)
  {
    forall t: nat :: TableForBucket(cfg, t / 86400 * 86400) == TableForBucket(cfg, t)
  }

  /** All times of a day have the table of its start exactly when tables begin at midnight and last
      whole days. */
  lemma DaysShareTablesIff(cfg: Config)
    requires ValidConfig(cfg) && cfg.usePeriodicTables && cfg.periodicTableStart >= 0
    requires forall i: nat :: cfg.tablePrefix + FormatSigned(i, 10) != cfg.originalTableName
    ensures DaysShareTables(cfg) <==> WholeDays(cfg)
  {
    var start, period := cfg.periodicTableStart, cfg.tablePeriod;
    if WholeDays(cfg) {
      forall t: nat ensures TableForBucket(cfg, t / 86400 * 86400) == TableForBucket(cfg, t) {
        UnitAndTimeShareTable(cfg, t, 86400, period / 86400, start / 86400);
      }
    } else if start % 86400 != 0 {
      FirstWithinDay(cfg);
    } else {
      var i := LaterMultiple(start, period);
      TurnsWithinDay(cfg, i, i * period);
    }
  }

  /** The first periodic table begins within a day. */
  lemma FirstWithinDay(cfg: Config)
    requires ValidConfig(cfg) && cfg.usePeriodicTables && cfg.periodicTableStart >= 0 && cfg.periodicTableStart % 86400 != 0
    requires forall i: nat :: cfg.tablePrefix + FormatSigned(i, 10) != cfg.originalTableName
    ensures !DaysShareTables(cfg)
  {
    var t: nat := cfg.periodicTableStart;
    var i := Quotient(t, cfg.tablePeriod);
    assert t / 86400 * 86400 < t;
    assert TableForBucket(cfg, t / 86400 * 86400) != TableForBucket(cfg, t);
  }

  /** Another periodic table begins within a day. */
  lemma TurnsWithinDay(cfg: Config, i: nat, t: nat)
    requires ValidConfig(cfg) && cfg.usePeriodicTables && 0 <= cfg.periodicTableStart <= t == i * cfg.tablePeriod && t % 86400 != 0
    requires forall j: nat :: cfg.tablePrefix + FormatSigned(j, 10) != cfg.originalTableName
    ensures !DaysShareTables(cfg)
  {
    var d := t / 86400 * 86400;
    assert 0 <= d < t;
    DivUnique(t, cfg.tablePeriod, i);
    var j := Quotient(d, cfg.tablePeriod);
    if j == i {
      assert false;
    }
    NamesDiffer(cfg.tablePrefix, i, j);
    assert TableForBucket(cfg, d) != TableForBucket(cfg, t);
  }

  lemma Quotient(t: nat, period: int) returns (i: nat)
    requires period > 0
    ensures i == t / period && i * period <= t < i * period + period
  {
    DivBounds(t, period);
    i := t / period;
  }

  lemma NamesDiffer(prefix: Bytes, i: nat, j: nat)
    requires i != j
    ensures prefix + FormatSigned(i, 10) != prefix + FormatSigned(j, 10)
  {
    UintRoundTrip(i, 10, i + j + 1);
    UintRoundTrip(j, 10, i + j + 1);
    var x, y := prefix + FormatSigned(i, 10), prefix + FormatSigned(j, 10);
    assert x[|prefix|..] == FormatSigned(i, 10) && y[|prefix|..] == FormatSigned(j, 10);
  }

  /** Some multiple of a number of seconds that is no number of days is late enough and is none
      either. */
  lemma LaterMultiple(start: nat, period: nat) returns (i: nat)
    requires period % 86400 != 0
    ensures start <= i * period && (i * period) % 86400 != 0
  {
    if start > 0 {
      MulMonotone(1, period, start);
    }
    var s := start * period;
    assert start <= s && (start + 1) * period == s + period;
    i := if NotDays(s) then start else start + 1;
    NotBoth(s, period);
  }

  predicate NotDays(s: nat) {
    s % 86400 != 0
  }

  lemma NotBoth(s: nat, period: nat)
    requires NotDays(period)
    ensures NotDays(s) || NotDays(s + period)
  {
  }

  lemma IndexOfInstant(v: Version, t: nat)
    ensures BucketIndex(v, t) == (if v == V1 then t / 3_600_000 else t / 86_400_000)
    ensures BucketIndex(v, t) == (if v == V1 then t / 1000 / 3600 else t / 1000 / 86400)
  {
    InstantInBucket(v, t);
    DivUnique(t, if v == V1 then 3_600_000 else 86_400_000, BucketIndex(v, t));
  }

  /** A bucket of a segment is in the table of each of its instants in the bucket. */
  lemma TableOfInstant(cfg: Config, user: Bytes, name: Bytes, seg: Segment, t: nat)
    requires ValidConfig(cfg) && WholeDays(cfg)
    ensures BucketAt(cfg, user, name, seg, BucketIndex(seg.version, t)).table == TableForBucket(cfg, t / 1000)
  {
    IndexOfInstant(seg.version, t);
    var days, day := cfg.tablePeriod / 86400, cfg.periodicTableStart / 86400;
    if seg.version == V1 {
      UnitAndTimeShareTable(cfg, t / 1000, 3600, 24 * days, 24 * day);
    } else {
      UnitAndTimeShareTable(cfg, t / 1000, 86400, days, day);
    }
  }

  lemma BucketAtIs(cfg: Config, schemas: seq<SchemaEntry>, user: Bytes, name: Bytes, seg: Segment, t: nat)
    requires ValidConfig(cfg) && WholeDays(cfg) && FromEpoch(schemas) && seg.version == VersionAt(schemas, t)
    ensures IsBucketOf(cfg, schemas, user, name, t, BucketAt(cfg, user, name, seg, BucketIndex(seg.version, t)))
  {
    IndexOfInstant(seg.version, t);
    TableOfInstant(cfg, user, name, seg, t);
  }

  /** Every bucket visited for an interval is the bucket of one of its instants. */
  lemma BucketHasInstant(cfg: Config, schemas: seq<SchemaEntry>, user: Bytes, name: Bytes, from: int, through: int, b: Bucket)
    returns (t: nat)
    requires ValidConfig(cfg) && WholeDays(cfg) && FromEpoch(schemas) && from <= through && from < LATEST
    requires b in Buckets(cfg, schemas, user, name, from, through)
    ensures Inside(t, from, through) && IsBucketOf(cfg, schemas, user, name, t, b)
  {
    var seg, i := AllBucketsMember(cfg, user, name, Segments(schemas, from, through), b);
    SegmentInstant(schemas, from, through, seg, seg.from);
    var unit := BucketLength(seg.version);
    t := Max(seg.from, i * unit);
    InstantInBucket(seg.version, seg.from);
    InstantInBucket(seg.version, seg.through);
    InUnit(seg, i, t);
    SegmentInstant(schemas, from, through, seg, t);
    BucketAtIs(cfg, schemas, user, name, seg, t);
  }

  /** The first instant of a segment in one of its buckets. */
  lemma InUnit(seg: Segment, i: int, t: int)
    requires 0 <= seg.from <= seg.through && t == Max(seg.from, i * BucketLength(seg.version))
    requires BucketIndex(seg.version, seg.from) <= i <= BucketIndex(seg.version, seg.through)
    ensures seg.from <= t <= seg.through && BucketIndex(seg.version, t) == i
  {
    var unit := BucketLength(seg.version);
    InstantInBucket(seg.version, seg.from);
    InstantInBucket(seg.version, seg.through);
    MulMonotone(i, BucketIndex(seg.version, seg.through), unit);
    MulMonotone(BucketIndex(seg.version, seg.from) + 1, i + 1, unit);
    assert i * unit <= t < i * unit + unit;
    InstantInBucket(seg.version, t);
    DivUnique(t, unit, i);
    DivUnique(t, unit, BucketIndex(seg.version, t));
  }

  /** Every instant of an interval has its bucket among those visited. */
  lemma InstantHasBucket(cfg: Config, schemas: seq<SchemaEntry>, user: Bytes, name: Bytes, from: int, through: int, t: nat)
    requires ValidConfig(cfg) && WholeDays(cfg) && FromEpoch(schemas) && Inside(t, from, through)
    ensures exists b :: b in Buckets(cfg, schemas, user, name, from, through) && IsBucketOf(cfg, schemas, user, name, t, b)
  {
    var seg := BucketOfInstant(cfg, schemas, user, name, from, through, t);
    BucketAtIs(cfg, schemas, user, name, seg, t);
  }

  /** Every row of a chunk is in the table of an instant of the chunk. */
  lemma RowHasInstant(env: Env, c: Chunk, e: Entry) returns (t: nat)
    requires env.Valid() && WholeDays(env.cfg) && GoodChunk(c) && Indexes(env, c, e)
    ensures c.ref.from <= t <= c.ref.through && e.table == TableForBucket(env.cfg, t / 1000)
  {
    var b :| b in BucketsOfChunk(env, c) && e in WriteRows(b, c.metric, Key(c.ref));
    RowTable(b, c.metric, Key(c.ref), e);
    t := BucketHasInstant(env.cfg, env.schemas, c.ref.user, c.metric[METRIC_NAME], c.ref.from, c.ref.through, b);
  }

  /** All tables that a chunk of recent times is written to are expected, with the throughput for
      writing. */
  lemma RowsHaveThroughput(env: Env, m: ManagerConfig, now: int, c: Chunk, e: Entry)
    requires env.Valid() && WholeDays(env.cfg) && env.cfg.usePeriodicTables && m.schema == env.cfg
    requires GoodChunk(c) && Indexes(env, c, e) && m.schema.periodicTableStart <= c.ref.from / 1000
    requires now - m.gracePeriod - m.maxChunkAge <= c.ref.from / 1000 && c.ref.through / 1000 <= now + m.gracePeriod
    ensures IsExpected(m, now, Desc(e.table, m.provisionedRead, m.provisionedWrite))
  {
    var t := RowHasInstant(env, c, e);
    TablesInUseHaveThroughput(m, now, t / 1000);
  }
}
