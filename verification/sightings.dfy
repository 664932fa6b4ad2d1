/** When a read comes across rows that are not of its own schema version. Rows from v2 on share
    one hash key a day, whatever their version, so that on a day on which the version changes a
    read of the one version scans rows of the other. Everything here is said of instants: of
    one in the interval of a chunk and one in the interval of a query. */
module Sightings {
  import opened ByteStrings
  import opened Schema
  import opened SchemaCoverage

  /** The schemas of a store: in order, from the epoch on. */
  ghost predicate FromEpoch(schemas: seq<SchemaEntry>) {
    ValidSchemas(schemas) && schemas[0].start == 0
  }

  /** An instant of an interval that the index knows of. */
  predicate Inside(t: int, from: int, through: int) {
    0 <= t < LATEST && from <= t <= through
  }

  function Day(t: int): int {
    BucketIndex(V2, t)
  }

  /** At `s` the chunk writes v4 rows or later ones, and at `u`, on the same day, the query scans
      them: v6 leaves out v4 rows, and rows that end before it begins to read. */
  ghost predicate SeesNew(schemas: seq<SchemaEntry>, s: int, u: int)
    requires FromEpoch(schemas) && s >= 0 && u >= 0
  {
    && Day(s) == Day(u) && IsNew(VersionAt(schemas, s)) && VersionAt(schemas, u) != V1
    && (VersionAt(schemas, u) == V6 ==> VersionAt(schemas, s) != V4 && u <= s)
  }

  /** At `s` the chunk writes v2 or v3 rows, and at `u`, on the same day, the query scans the rows
      of a label as v4 or later ones; v4 finds no old row when it looks for one value. */
  ghost predicate SeesOld(schemas: seq<SchemaEntry>, s: int, u: int, byValue: bool)
    requires FromEpoch(schemas) && s >= 0 && u >= 0
  {
    && Day(s) == Day(u) && VersionAt(schemas, s) in {V2, V3} && IsNew(VersionAt(schemas, u))
    && (VersionAt(schemas, u) == V4 ==> !byValue)
  }

  ghost predicate NewRowsSeen(schemas: seq<SchemaEntry>, chunkFrom: int, chunkThrough: int, from: int, through: int)
    requires FromEpoch(schemas)
  {
    exists s, u :: Inside(s, chunkFrom, chunkThrough) && Inside(u, from, through) && SeesNew(schemas, s, u)
  }

  ghost predicate OldRowsSeen(schemas: seq<SchemaEntry>, chunkFrom: int, chunkThrough: int, from: int, through: int,
                              byValue: bool)
    requires FromEpoch(schemas)
  {
    exists s, u :: Inside(s, chunkFrom, chunkThrough) && Inside(u, from, through) && SeesOld(schemas, s, u, byValue)
  }

  // -------------------------------------------------- instants and buckets

  /** A segment visited for an interval lies in it, and one version is in force throughout. */
  lemma SegmentInstant(schemas: seq<SchemaEntry>, from: int, through: int, seg: Segment, t: int)
    requires FromEpoch(schemas) && from <= through && from < LATEST && seg in Segments(schemas, from, through)
    ensures 0 <= seg.from <= seg.through && from <= seg.from && seg.through <= through && seg.through < LATEST
    ensures seg.from <= t <= seg.through ==> Inside(t, from, through) && VersionAt(schemas, t) == seg.version
  {
    SegmentsPartition(schemas, from, through);
    PartitionVersion(schemas, Max(from, schemas[0].start), Min(through, LATEST - 1), Segments(schemas, from, through), seg, t);
  }

  lemma {:induction false} PartitionVersion(schemas: seq<SchemaEntry>, lo: int, hi: int, segs: seq<Segment>, seg: Segment, t: int)
    requires AdjacentSorted(schemas) && schemas != [] && schemas[0].start <= lo
    requires Partitions(schemas, lo, hi, segs) && seg in segs
    ensures lo <= seg.from <= seg.through <= hi
    ensures seg.from <= t <= seg.through ==> VersionAt(schemas, t) == seg.version
    decreases |segs|
  {
    if seg != segs[0] {
      assert segs == [segs[0]] + segs[1..];
      PartitionVersion(schemas, segs[0].through + 1, hi, segs[1..], seg, t);
    }
  }

  /** The first and the last instant of a segment on one of its days. */
  lemma DayOfSegment(seg: Segment, i: int) returns (first: int, last: int)
    requires seg.version != V1 && 0 <= seg.from <= seg.through
    requires BucketIndex(seg.version, seg.from) <= i <= BucketIndex(seg.version, seg.through)
    ensures seg.from <= first <= last <= seg.through && Day(first) == Day(last) == i
    ensures first == Max(seg.from, i * MS_IN_DAY) && last == Min(seg.through, i * MS_IN_DAY + MS_IN_DAY - 1)
  {
    first, last := Max(seg.from, i * MS_IN_DAY), Min(seg.through, i * MS_IN_DAY + MS_IN_DAY - 1);
    InstantInBucket(seg.version, seg.from);
    InstantInBucket(seg.version, seg.through);
    DayIs(first, i);
    DayIs(last, i);
  }

  lemma DayIs(t: int, i: int)
    requires t >= 0
    ensures Day(t) == i <==> i * MS_IN_DAY <= t < i * MS_IN_DAY + MS_IN_DAY
  {
    InstantInBucket(V2, t);
  }

  /** A write bucket and a read bucket of one day show the query the chunk's new rows exactly
      when two instants do. */
  lemma SeenByBuckets(schemas: seq<SchemaEntry>, chunkFrom: int, chunkThrough: int, from: int, through: int,
                      ws: Segment, rs: Segment, i: int, cfg: Config, user: Bytes, n1: Bytes, n2: Bytes)
    requires FromEpoch(schemas) && chunkFrom <= chunkThrough && chunkFrom < LATEST && from <= through && from < LATEST
    requires ws in Segments(schemas, chunkFrom, chunkThrough) && rs in Segments(schemas, from, through)
    requires ValidConfig(cfg) && IsNew(ws.version) && rs.version != V1
    requires BucketIndex(ws.version, ws.from) <= i <= BucketIndex(ws.version, ws.through)
    requires BucketIndex(rs.version, rs.from) <= i <= BucketIndex(rs.version, rs.through)
    requires ScansNew(BucketAt(cfg, user, n1, ws, i), BucketAt(cfg, user, n2, rs, i))
    ensures NewRowsSeen(schemas, chunkFrom, chunkThrough, from, through)
  {
    SegmentInstant(schemas, chunkFrom, chunkThrough, ws, ws.from);
    SegmentInstant(schemas, from, through, rs, rs.from);
    var wFirst, s := DayOfSegment(ws, i);
    var u, rLast := DayOfSegment(rs, i);
    SegmentInstant(schemas, chunkFrom, chunkThrough, ws, s);
    SegmentInstant(schemas, from, through, rs, u);
    DailyOffsets(cfg, user, n1, ws, i);
    DailyOffsets(cfg, user, n2, rs, i);
    DayIs(s, i);
    DayIs(u, i);
    assert SeesNew(schemas, s, u);
  }

  /** The same for old rows and a label scan. */
  lemma OldSeenByBuckets(schemas: seq<SchemaEntry>, chunkFrom: int, chunkThrough: int, from: int, through: int,
                         ws: Segment, rs: Segment, i: int, byValue: bool)
    requires FromEpoch(schemas) && chunkFrom <= chunkThrough && chunkFrom < LATEST && from <= through && from < LATEST
    requires ws in Segments(schemas, chunkFrom, chunkThrough) && rs in Segments(schemas, from, through)
    requires ws.version in {V2, V3} && IsNew(rs.version) && (rs.version == V4 ==> !byValue)
    requires BucketIndex(ws.version, ws.from) <= i <= BucketIndex(ws.version, ws.through)
    requires BucketIndex(rs.version, rs.from) <= i <= BucketIndex(rs.version, rs.through)
    ensures OldRowsSeen(schemas, chunkFrom, chunkThrough, from, through, byValue)
  {
    SegmentInstant(schemas, chunkFrom, chunkThrough, ws, ws.from);
    SegmentInstant(schemas, from, through, rs, rs.from);
    var s, wLast := DayOfSegment(ws, i);
    var u, rLast := DayOfSegment(rs, i);
    SegmentInstant(schemas, chunkFrom, chunkThrough, ws, s);
    SegmentInstant(schemas, from, through, rs, u);
    assert SeesOld(schemas, s, u, byValue);
  }

  /** Two instants of one day, neither under v1, give a write and a read bucket of that day. */
  lemma BucketsOfInstants(cfg: Config, schemas: seq<SchemaEntry>, user: Bytes, n1: Bytes, n2: Bytes,
                          chunkFrom: int, chunkThrough: int, from: int, through: int, s: int, u: int)
    returns (w: Bucket, r: Bucket, day: Bytes)
    requires ValidConfig(cfg) && FromEpoch(schemas)
    requires Inside(s, chunkFrom, chunkThrough) && Inside(u, from, through) && Day(s) == Day(u)
    requires VersionAt(schemas, s) != V1 && VersionAt(schemas, u) != V1
    ensures w in Buckets(cfg, schemas, user, n1, chunkFrom, chunkThrough) && w.version == VersionAt(schemas, s)
    ensures r in Buckets(cfg, schemas, user, n2, from, through) && r.version == VersionAt(schemas, u)
    ensures w.table == r.table && w.hash == HashKey(user, day, n1) && r.hash == HashKey(user, day, n2)
    ensures r.from <= MS_IN_DAY && (u <= s ==> r.from <= w.through)
  {
    var ws := BucketOfInstant(cfg, schemas, user, n1, chunkFrom, chunkThrough, s);
    var rs := BucketOfInstant(cfg, schemas, user, n2, from, through, u);
    var i := Day(s);
    w, r, day := BucketAt(cfg, user, n1, ws, i), BucketAt(cfg, user, n2, rs, i), BucketName(V2, i);
    DailyOffsets(cfg, user, n1, ws, i);
    DailyOffsets(cfg, user, n2, rs, i);
    DayIs(s, i);
    DayIs(u, i);
  }

  // -------------------------------------------------- schemas that change at midnight

  /** Schemas start at midnight, as the dates they are configured with do. */
  ghost predicate AtMidnight(schemas: seq<SchemaEntry>) {
    forall k :: 0 <= k < |schemas| ==> schemas[k].start % MS_IN_DAY == 0
  }

  /** Then one version is in force throughout a day. */
  lemma OneVersionADay(schemas: seq<SchemaEntry>, s: int, u: int)
    requires FromEpoch(schemas) && AtMidnight(schemas) && s >= 0 && u >= 0 && Day(s) == Day(u)
    ensures VersionAt(schemas, s) == VersionAt(schemas, u)
  {
    var i := Day(s);
    DayIs(s, i);
    DayIs(u, i);
    forall k | 0 <= k < |schemas| ensures schemas[k].start <= s <==> schemas[k].start <= u {
      var d := schemas[k].start / MS_IN_DAY;
      assert schemas[k].start == d * MS_IN_DAY;
      assert schemas[k].start <= s <==> d <= i;
      assert schemas[k].start <= u <==> d <= i;
    }
  }

  /** Then no read comes across old rows, and overlapping intervals come across new rows exactly
      when they share an instant of v4 or later. */
  lemma SeenAtMidnight(schemas: seq<SchemaEntry>, chunkFrom: int, chunkThrough: int, from: int, through: int)
    requires FromEpoch(schemas) && AtMidnight(schemas)
    requires chunkFrom <= chunkThrough && from <= through && chunkFrom <= through && from <= chunkThrough
    ensures NewRowsSeen(schemas, chunkFrom, chunkThrough, from, through) <==> SharesNew(schemas, chunkFrom, chunkThrough, from, through)
    ensures !OldRowsSeen(schemas, chunkFrom, chunkThrough, from, through, true)
    ensures !OldRowsSeen(schemas, chunkFrom, chunkThrough, from, through, false)
  {
    if NewRowsSeen(schemas, chunkFrom, chunkThrough, from, through) {
      var s, u :| Inside(s, chunkFrom, chunkThrough) && Inside(u, from, through) && SeesNew(schemas, s, u);
      var t := CommonInstant(chunkFrom, chunkThrough, from, through, s, u);
      OneVersionADay(schemas, s, t);
    }
    if SharesNew(schemas, chunkFrom, chunkThrough, from, through) {
      var t :| Inside(t, chunkFrom, chunkThrough) && Inside(t, from, through) && IsNew(VersionAt(schemas, t));
      assert SeesNew(schemas, t, t);
    }
    NeverOld(schemas);
  }

  /** Overlapping intervals that both reach a day share an instant of it. */
  lemma CommonInstant(chunkFrom: int, chunkThrough: int, from: int, through: int, s: int, u: int) returns (t: int)
    requires chunkFrom <= through && from <= chunkThrough
    requires Inside(s, chunkFrom, chunkThrough) && Inside(u, from, through) && Day(s) == Day(u)
    ensures Inside(t, chunkFrom, chunkThrough) && Inside(t, from, through) && Day(t) == Day(s)
  {
    var i := Day(s);
    DayIs(s, i);
    DayIs(u, i);
    t := Max(Max(chunkFrom, from), i * MS_IN_DAY);
    InstantInBucket(V2, s);
    DayIs(t, i);
  }

  lemma NeverOld(schemas: seq<SchemaEntry>)
    requires FromEpoch(schemas) && AtMidnight(schemas)
    ensures forall s, u, byValue :: s >= 0 && u >= 0 ==> !SeesOld(schemas, s, u, byValue)
  {
    forall s, u, byValue | s >= 0 && u >= 0 ensures !SeesOld(schemas, s, u, byValue) {
      if Day(s) == Day(u) {
        OneVersionADay(schemas, s, u);
      }
    }
  }

  /** Both intervals have an instant at which v4 or a later version is in force. */
  ghost predicate SharesNew(schemas: seq<SchemaEntry>, chunkFrom: int, chunkThrough: int, from: int, through: int)
    requires FromEpoch(schemas)
  {
    exists t :: Inside(t, chunkFrom, chunkThrough) && Inside(t, from, through) && IsNew(VersionAt(schemas, t))
  }
}
