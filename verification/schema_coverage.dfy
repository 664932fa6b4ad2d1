/** Reads meet writes: for every composite schema, a query finds an index row of every
    chunk it shares an instant with, and never takes a row for what it is not. */
module SchemaCoverage {
  import opened ByteStrings
  import opened Delimited
  import opened Numerals
  import opened RangeKeys
  import opened Storage
  import opened Schema
  import Base64

  // -------------------------------------------------- a shared instant gives a shared bucket

  function BucketLength(v: Version): int {
    if v == V1 then MS_IN_HOUR else MS_IN_DAY
  }

  lemma InstantInBucket(v: Version, t: int)
    requires t >= 0
    ensures var i := BucketIndex(v, t); 0 <= i && i * BucketLength(v) <= t < (i + 1) * BucketLength(v)
  {
    var u := t / 1000;
    assert Unix(t) == u && 1000 * u <= t < 1000 * u + 1000;
    if v == V1 {
      assert 3600 * (u / 3600) <= u < 3600 * (u / 3600) + 3600;
    } else {
      assert 86400 * (u / 86400) <= u < 86400 * (u / 86400) + 86400;
    }
  }

  lemma BucketIndexMonotone(v: Version, s: int, t: int)
    requires 0 <= s <= t
    ensures BucketIndex(v, s) <= BucketIndex(v, t)
  {
    InstantInBucket(v, s);
    InstantInBucket(v, t);
  }

  /** In a daily bucket the offsets are true offsets: nothing wraps around. */
  lemma DailyOffsets(cfg: Config, user: Bytes, name: Bytes, seg: Segment, i: int)
    requires ValidConfig(cfg) && seg.version != V1 && 0 <= seg.from <= seg.through
    requires BucketIndex(seg.version, seg.from) <= i <= BucketIndex(seg.version, seg.through)
    ensures var b := BucketAt(cfg, user, name, seg, i);
            && b.from == Max(0, seg.from - i * MS_IN_DAY) < MS_IN_DAY
            && b.through == Min(MS_IN_DAY, seg.through - i * MS_IN_DAY)
  {
    InstantInBucket(seg.version, seg.from);
    InstantInBucket(seg.version, seg.through);
  }

  /** In an hourly bucket the first offset is a true one too; but the last is counted from the start of
      the day with the number of the hour, and wraps around when the interval does not reach it. */
  lemma HourlyOffsets(cfg: Config, user: Bytes, name: Bytes, seg: Segment, i: int)
    requires ValidConfig(cfg) && seg.version == V1 && 0 <= seg.from <= seg.through
    requires BucketIndex(V1, seg.from) <= i <= BucketIndex(V1, seg.through)
    ensures var b := BucketAt(cfg, user, name, seg, i);
            && b.from == Max(0, seg.from - i * 3_600_000) < 3_600_000
            && (seg.through >= i * 86_400_000 ==> b.through == Min(3_600_000, seg.through - i * 86_400_000))
            && (seg.through < i * 86_400_000 ==> b.through == (seg.through - i * 86_400_000) % 0x1_0000_0000)
  {
    InstantInBucket(V1, seg.from);
    InstantInBucket(V1, seg.through);
  }

  /** That does no harm: before v5 neither rows nor scans depend on the offsets of a bucket. */
  lemma OffsetsUnused(b: Bucket, from: Uint32, through: Uint32, labels: Metric, id: Bytes, l: Lookup)
    requires b.version in {V1, V2, V3, V4}
    ensures var b' := b.(from := from, through := through);
            WriteRows(b', labels, id) == WriteRows(b, labels, id) && ReadQuery(b', l) == ReadQuery(b, l)
  {
    var b' := b.(from := from, through := through);
    assert forall ln :: ln in labels ==> LabelEntry(b', ln, labels[ln], id) == LabelEntry(b, ln, labels[ln], id);
    assert MetricEntries(b', id) == MetricEntries(b, id);
    assert LabelRows(b', labels, id, labels.Keys) == LabelRows(b, labels, id, labels.Keys);
  }

  /** The bucket of an instant inside a segment. */
  lemma BucketOfInstant(cfg: Config, schemas: seq<SchemaEntry>, user: Bytes, name: Bytes, from: int, through: int, t: int)
    returns (seg: Segment)
    requires ValidConfig(cfg) && ValidSchemas(schemas) && 0 <= schemas[0].start <= t < LATEST
    requires from <= t <= through
    ensures seg.version == VersionAt(schemas, t) && 0 <= seg.from <= t <= seg.through
    ensures BucketIndex(seg.version, seg.from) <= BucketIndex(seg.version, t) <= BucketIndex(seg.version, seg.through)
    ensures BucketAt(cfg, user, name, seg, BucketIndex(seg.version, t))
         in Buckets(cfg, schemas, user, name, from, through)
  {
    SegmentsPartition(schemas, from, through);
    var segs := Segments(schemas, from, through);
    var k := PartitionCovers(schemas, Max(from, schemas[0].start), Min(through, LATEST - 1), segs, t);
    seg := segs[k];
    BucketIndexMonotone(seg.version, seg.from, t);
    BucketIndexMonotone(seg.version, t, seg.through);
    AllBucketsContains(cfg, user, name, segs, k, BucketIndex(seg.version, t));
  }

  /** A bucket that a write visits and a bucket that a read visits are the same place, and
      the read starts no later than the write ends. */
  ghost predicate Meet(w: Bucket, r: Bucket) {
    && w.version == r.version && w.table == r.table && w.hash == r.hash
    && (w.version != V1 ==> r.from <= w.through)
  }

  /** If a chunk and a query share an instant, some bucket of the chunk meets some bucket of
      the query, and both belong to the version in force at that instant. */
  lemma SharedInstant(cfg: Config, schemas: seq<SchemaEntry>, user: Bytes, name: Bytes,
                      chunkFrom: int, chunkThrough: int, from: int, through: int, t: int)
    returns (w: Bucket, r: Bucket)
    requires ValidConfig(cfg) && ValidSchemas(schemas) && 0 <= schemas[0].start <= t < LATEST
    requires chunkFrom <= t <= chunkThrough && from <= t <= through
    ensures w in Buckets(cfg, schemas, user, name, chunkFrom, chunkThrough)
    ensures r in Buckets(cfg, schemas, user, name, from, through)
    ensures Meet(w, r) && w.version == VersionAt(schemas, t)
  {
    var ws := BucketOfInstant(cfg, schemas, user, name, chunkFrom, chunkThrough, t);
    var rs := BucketOfInstant(cfg, schemas, user, name, from, through, t);
    var i := BucketIndex(ws.version, t);
    w, r := BucketAt(cfg, user, name, ws, i), BucketAt(cfg, user, name, rs, i);
    if ws.version != V1 {
      DailyOffsets(cfg, user, name, ws, i);
      DailyOffsets(cfg, user, name, rs, i);
      InstantInBucket(ws.version, t);
    }
  }

  // -------------------------------------------------- a shared bucket gives a scanned row

  /** The query reads the row of the entry and its scan takes the entry in. */
  predicate Finds(q: Query, e: Entry) {
    q.table == e.table && q.hash == e.hash && q.Scans(e.rangeValue)
  }

  predicate AsksFor(l: Lookup, ln: Bytes, value: Bytes) {
    l == ByLabel(ln) || l == ByValue(ln, value)
  }

  lemma LabelRowIsFound(w: Bucket, r: Bucket, ln: Bytes, value: Bytes, id: Bytes, l: Lookup)
    requires Meet(w, r) && AsksFor(l, ln, value) && ReadQuery(r, l).Some?
    ensures Finds(ReadQuery(r, l).value, LabelEntry(w, ln, value, id))
  {
    var encoded := Base64.Encode(value);
    match w.version {
      case V1 | V2 =>
        RangeKeyPrefix([ln], [value, id]);
        RangeKeyPrefix([ln, value], [id]);
        assert [ln] + [value, id] == [ln, value, id] && [ln, value] + [id] == [ln, value, id];
      case V3 =>
        RangeKeyPrefix([ln], [encoded, id, VERSION_1]);
        RangeKeyPrefix([ln, encoded], [id, VERSION_1]);
        assert [ln] + [encoded, id, VERSION_1] == [ln, encoded, id, VERSION_1];
        assert [ln, encoded] + [id, VERSION_1] == [ln, encoded, id, VERSION_1];
      case V4 =>
        RangeKeyPrefix([[], encoded], [id, VERSION_1]);
        assert [[], encoded] + [id, VERSION_1] == [[], encoded, id, VERSION_1];
      case V5 =>
      case V6 =>
        ScanStart(r.from, w.through, [[], id, VERSION_5]);
        assert [EncodeTime(w.through)] + [[], id, VERSION_5] == [EncodeTime(w.through), [], id, VERSION_5];
    }
  }

  lemma MetricRowIsFound(w: Bucket, r: Bucket, id: Bytes, e: Entry)
    requires Meet(w, r) && e in MetricEntries(w, id)
    ensures Finds(ReadQuery(r, ByMetric).value, e)
  {
    if w.version == V6 {
      ScanStart(r.from, w.through, [[], id, VERSION_3]);
      assert [EncodeTime(w.through)] + [[], id, VERSION_3] == [EncodeTime(w.through), [], id, VERSION_3];
    }
  }

  // -------------------------------------------------- rows parse back

  /** Every label row of every version parses back to its chunk and its label value. */
  lemma LabelRowParses(b: Bucket, ln: Bytes, value: Bytes, id: Bytes)
    requires Free(ln, NUL) && Free(id, NUL)
    requires b.version in {V1, V2} ==> Free(value, NUL)
    ensures var e := LabelEntry(b, ln, value, id);
            Parse(e.rangeValue, e.value) == Row(id, value, b.version in {V1, V2})
  {
    match b.version {
      case V1 | V2 => ParseOfRangeKey([ln, value, id], None);
      case V3 => EncodedRowParses(ln, value, id, VERSION_1);
      case V4 => EncodedRowParses([], value, id, VERSION_1);
      case V5 =>
        EncodeTimeDigits(b.through);
        EncodedRowParses(EncodeTime(b.through), value, id, VERSION_4);
      case V6 =>
        EncodeTimeDigits(b.through);
        ParseOfRangeKey([EncodeTime(b.through), [], id, VERSION_5], Some(value));
    }
  }

  /** The rows that carry their value in base64. */
  lemma EncodedRowParses(head: Bytes, value: Bytes, id: Bytes, version: Bytes)
    requires Free(head, NUL) && Free(id, NUL) && version in {VERSION_1, VERSION_4}
    ensures Parse(RangeKey([head, Base64.Encode(value), id, version]), None) == Row(id, value, false)
  {
    Base64.RoundTrip(value);
    Base64.EncodeIsNulFree(value);
    ParseOfRangeKey([head, Base64.Encode(value), id, version], None);
  }

  /** Every metric row parses back to its chunk and to no label value. */
  lemma MetricRowParses(b: Bucket, id: Bytes, e: Entry)
    requires Free(id, NUL) && e in MetricEntries(b, id)
    ensures Parse(e.rangeValue, e.value) == Row(id, [], false)
  {
    EncodeTimeDigits(b.through);
    match b.version {
      case V4 => ParseOfRangeKey([[], [], id, VERSION_2], None);
      case V5 | V6 => ParseOfRangeKey([EncodeTime(b.through), [], id, VERSION_3], None);
    }
  }

  // -------------------------------------------------- hash keys tell users, metrics and labels apart

  lemma BucketNameFree(v: Version, i: int)
    ensures Free(BucketName(v, i), COLON)
  {
    FormatSignedFree(i, 10, COLON);
  }

  lemma HashKeyInjective(u1: Bytes, b1: Bytes, n1: Bytes, u2: Bytes, b2: Bytes, n2: Bytes)
    requires Free(u1, COLON) && Free(u2, COLON) && Free(b1, COLON) && Free(b2, COLON)
    ensures HashKey(u1, b1, n1) == HashKey(u2, b2, n2) <==> u1 == u2 && b1 == b2 && n1 == n2
  {
    if HashKey(u1, b1, n1) == HashKey(u2, b2, n2) {
      FirstPart(u1, b1 + [COLON] + n1, u2, b2 + [COLON] + n2, COLON);
      FirstPart(b1, n1, b2, n2, COLON);
    }
  }

  function LabelHashKey(user: Bytes, bucket: Bytes, name: Bytes, ln: Bytes): Bytes {
    HashKey(user, bucket, name) + [COLON] + ln
  }

  lemma LabelHashKeyIsHashKey(user: Bytes, bucket: Bytes, name: Bytes, ln: Bytes)
    ensures LabelHashKey(user, bucket, name, ln) == HashKey(user, bucket, name + [COLON] + ln)
  {
  }

  /** When a metric row and a label row have the same hash key: exactly when the one metric's
      name is the other metric's name, a colon and the label. */
  lemma RowsCollide(u1: Bytes, b1: Bytes, n1: Bytes, u2: Bytes, b2: Bytes, n2: Bytes, ln: Bytes)
    requires Free(u1, COLON) && Free(u2, COLON) && Free(b1, COLON) && Free(b2, COLON)
    ensures HashKey(u1, b1, n1) == LabelHashKey(u2, b2, n2, ln)
            <==> u1 == u2 && b1 == b2 && n1 == n2 + [COLON] + ln
  {
    LabelHashKeyIsHashKey(u2, b2, n2, ln);
    HashKeyInjective(u1, b1, n1, u2, b2, n2 + [COLON] + ln);
  }

  lemma LabelHashKeyInjective(u1: Bytes, b1: Bytes, n1: Bytes, l1: Bytes, u2: Bytes, b2: Bytes, n2: Bytes, l2: Bytes)
    requires Free(u1, COLON) && Free(u2, COLON) && Free(b1, COLON) && Free(b2, COLON)
    requires Free(l1, COLON) && Free(l2, COLON)
    ensures LabelHashKey(u1, b1, n1, l1) == LabelHashKey(u2, b2, n2, l2)
            <==> u1 == u2 && b1 == b2 && n1 == n2 && l1 == l2
  {
    if LabelHashKey(u1, b1, n1, l1) == LabelHashKey(u2, b2, n2, l2) {
      LastPart(HashKey(u1, b1, n1), l1, HashKey(u2, b2, n2), l2, COLON);
      HashKeyInjective(u1, b1, n1, u2, b2, n2);
    }
  }

  // -------------------------------------------------- rows of other versions

  /** From v4 on a chunk has a row of its own, and its label rows have hash keys of their own. */
  predicate IsNew(v: Version) {
    v in {V4, V5, V6}
  }

  /** A scan for a metric takes in the rows that a write from v4 on left under its hash key: all of
      them, but v6 begins at its own offset and so leaves out what ended earlier and all of v4. */
  predicate ScansNew(w: Bucket, r: Bucket) {
    r.version != V1 && (r.version == V6 ==> w.version != V4 && r.from <= w.through)
  }

  /** What the range value of a row from v4 on begins with. */
  function Head(w: Bucket): Bytes {
    if w.version == V4 then [] else EncodeTime(w.through)
  }

  ghost predicate BeginsWith(rangeValue: Bytes, head: Bytes) {
    exists rest :: rangeValue == RangeKey([head] + rest)
  }

  lemma NewRowHead(w: Bucket, labels: Metric, id: Bytes, e: Entry)
    requires IsNew(w.version) && e in WriteRows(w, labels, id)
    ensures BeginsWith(e.rangeValue, Head(w))
  {
    if e in MetricEntries(w, id) {
      var rest := if w.version == V4 then [[], id, VERSION_2] else [[], id, VERSION_3];
      assert [[], [], id, VERSION_2] == [[]] + [[], id, VERSION_2];
      assert [EncodeTime(w.through), [], id, VERSION_3] == [EncodeTime(w.through)] + [[], id, VERSION_3];
      assert e.rangeValue == RangeKey([Head(w)] + rest);
    } else {
      var ln :| ln in labels && ln != METRIC_NAME && e == LabelEntry(w, ln, labels[ln], id);
      LabelRowHead(w, ln, labels[ln], id);
    }
  }

  lemma LabelRowHead(w: Bucket, ln: Bytes, value: Bytes, id: Bytes)
    ensures BeginsWith(LabelEntry(w, ln, value, id).rangeValue, if IsNew(w.version) then Head(w) else ln)
  {
    var encoded, time := Base64.Encode(value), EncodeTime(w.through);
    var rest := match w.version
      case V1 | V2 => [value, id]
      case V3 => [encoded, id, VERSION_1]
      case V4 => [encoded, id, VERSION_1]
      case V5 => [encoded, id, VERSION_4]
      case V6 => [[], id, VERSION_5];
    assert [ln, value, id] == [ln] + [value, id];
    assert [ln, encoded, id, VERSION_1] == [ln] + [encoded, id, VERSION_1];
    assert [[], encoded, id, VERSION_1] == [[]] + [encoded, id, VERSION_1];
    assert [time, encoded, id, VERSION_4] == [time] + [encoded, id, VERSION_4];
    assert [time, [], id, VERSION_5] == [time] + [[], id, VERSION_5];
    assert LabelEntry(w, ln, value, id).rangeValue == RangeKey([if IsNew(w.version) then Head(w) else ln] + rest);
  }

  /** Whether a metric scan takes in a row from v4 on under its hash key. */
  lemma NewRowScanned(w: Bucket, r: Bucket, rangeValue: Bytes)
    requires IsNew(w.version) && r.version != V1 && BeginsWith(rangeValue, Head(w))
    ensures ReadQuery(r, ByMetric).value.Scans(rangeValue) <==> ScansNew(w, r)
  {
    var rest :| rangeValue == RangeKey([Head(w)] + rest);
    if r.version == V6 {
      if w.version == V4 {
        EmptyIsBelow(r.from, rest);
      } else {
        ScanStartIff(r.from, w.through, rest);
      }
    }
  }

  // -------------------------------------------------- a scanned row is what was asked for

  /** Labels in no way confused with the delimiters of hash and range keys. */
  ghost predicate CleanLabel(ln: Bytes) {
    Free(ln, COLON) && Free(ln, NUL)
  }

  /** Labels that moreover are not empty and do not begin with a digit, as every valid one. */
  ghost predicate PlainLabel(ln: Bytes) {
    ln != [] && ln[0] > NINE
  }

  /** Labels of a metric: with a colon in the metric name they must be plain. */
  ghost predicate GoodLabel(name: Bytes, ln: Bytes) {
    CleanLabel(ln) && (Free(name, COLON) || PlainLabel(ln))
  }

  /** The first component of a scanned range value is the one in the prefix. */
  lemma PrefixComponent(a: Bytes, more: seq<Bytes>, b: Bytes, rest: seq<Bytes>)
    requires Free(a, NUL) && Free(b, NUL)
    requires RangeKey([a] + more) <= RangeKey([b] + rest)
    ensures a == b
  {
    RangeKeyCons(a, more);
    RangeKeyCons(b, rest);
    var s := RangeKey([b] + rest);
    var tail := s[|RangeKey([a] + more)|..];
    assert s == RangeKey([a] + more) + tail;
    assert a + [NUL] + (RangeKey(more) + tail) == s;
    FirstPart(a, RangeKey(more) + tail, b, RangeKey(rest), NUL);
  }

  /** The prefix of a label scan: the label before v4, nothing for v4 looking for one value. */
  function ScanHead(r: Bucket, l: Lookup): Bytes
    requires !l.ByMetric?
  {
    if IsNew(r.version) then [] else l.ln
  }

  /** A row that a prefix scan takes in begins with the first component of the prefix. */
  lemma PrefixScanHead(r: Bucket, l: Lookup, rangeValue: Bytes, head: Bytes)
    requires !l.ByMetric? && ReadQuery(r, l).Some? && ReadQuery(r, l).value.Scans(rangeValue)
    requires BeginsWith(rangeValue, head) && Free(head, NUL) && Free(l.ln, NUL)
    requires !IsNew(r.version) || (r.version == V4 && l.ByValue?)
    ensures head == ScanHead(r, l)
  {
    var rest :| rangeValue == RangeKey([head] + rest);
    var first := ScanHead(r, l);
    match l {
      case ByLabel(x) =>
        assert [x] == [x] + [];
        PrefixComponent(first, [], head, rest);
      case ByValue(x, v) =>
        var y := if r.version in {V3, V4} then Base64.Encode(v) else v;
        assert [first, y] == [first] + [y];
        PrefixComponent(first, [y], head, rest);
    }
  }

  /** Two hash keys that agree are of one user and one bucket. */
  lemma SameUserAndBucket(u1: Bytes, b1: Bytes, x1: Bytes, u2: Bytes, b2: Bytes, x2: Bytes)
    requires Free(u1, COLON) && Free(u2, COLON) && Free(b1, COLON) && Free(b2, COLON)
    requires HashKey(u1, b1, x1) == HashKey(u2, b2, x2)
    ensures u1 == u2 && b1 == b2 && x1 == x2
  {
    HashKeyInjective(u1, b1, x1, u2, b2, x2);
  }

  /** Bucket names tell the buckets apart, and hours from days. */
  lemma BucketNameInjective(v1: Version, i1: int, v2: Version, i2: int)
    requires BucketName(v1, i1) == BucketName(v2, i2)
    ensures i1 == i2 && (v1 == V1 <==> v2 == V1)
  {
    DecimalBegins(i1);
    DecimalBegins(i2);
    if v1 != V1 && v2 != V1 {
      assert BucketName(v1, i1)[1..] == FormatSigned(i1, 10) && BucketName(v2, i2)[1..] == FormatSigned(i2, 10);
    }
    FormatSignedInjective(i1, i2, 10);
  }

  /** A decimal numeral does not begin with the mark of a day. */
  lemma DecimalBegins(i: int)
    ensures FormatSigned(i, 10)[0] != DAY_MARK
  {
    FormatDecimal(if i < 0 then -i else i);
  }

  lemma {:induction false} FormatDecimal(n: nat)
    ensures 48 <= Format(n, 10)[0] <= 57
  {
    if n >= 10 {
      FormatDecimal(n / 10);
    }
  }

  /** The name under which a row lies in a bucket: the metric's, or from v4 on for the row of a
      label the metric's name, a colon and the label. */
  function RowName(v: Version, name: Bytes, ln: Option<Bytes>): Bytes {
    if ln.Some? && IsNew(v) then name + [COLON] + ln.value else name
  }

  function LabelOf(l: Lookup): Option<Bytes> {
    if l.ByMetric? then None else Some(l.ln)
  }

  /** The row is the chunk's own row in the bucket, or the row of one of its labels. */
  ghost predicate IsRow(w: Bucket, labels: Metric, id: Bytes, ln: Option<Bytes>, e: Entry) {
    if ln.None? then e in MetricEntries(w, id)
    else ln.value in labels && ln.value != METRIC_NAME && e == LabelEntry(w, ln.value, labels[ln.value], id)
  }

  lemma RowKind(w: Bucket, labels: Metric, id: Bytes, e: Entry) returns (ln: Option<Bytes>)
    requires e in WriteRows(w, labels, id)
    ensures IsRow(w, labels, id, ln, e) && (ln.None? ==> IsNew(w.version))
  {
    if e in MetricEntries(w, id) {
      ln := None;
    } else {
      var x :| x in labels && x != METRIC_NAME && e == LabelEntry(w, x, labels[x], id);
      ln := Some(x);
    }
  }

  lemma RowTable(w: Bucket, labels: Metric, id: Bytes, e: Entry)
    requires e in WriteRows(w, labels, id)
    ensures e.table == w.table
  {
    var ln := RowKind(w, labels, id, e);
  }

  lemma RowHash(user: Bytes, bucket: Bytes, name: Bytes, w: Bucket, labels: Metric, id: Bytes, ln: Option<Bytes>, e: Entry)
    requires w.hash == HashKey(user, bucket, name) && IsRow(w, labels, id, ln, e)
    ensures e.table == w.table && e.hash == HashKey(user, bucket, RowName(w.version, name, ln))
  {
    if ln.Some? {
      LabelHashKeyIsHashKey(user, bucket, name, ln.value);
    }
  }

  lemma AskHash(user: Bytes, bucket: Bytes, name: Bytes, r: Bucket, l: Lookup)
    requires r.hash == HashKey(user, bucket, name) && ReadQuery(r, l).Some?
    ensures ReadQuery(r, l).value.table == r.table
    ensures ReadQuery(r, l).value.hash == HashKey(user, bucket, RowName(r.version, name, LabelOf(l)))
  {
    if !l.ByMetric? {
      LabelHashKeyIsHashKey(user, bucket, name, l.ln);
    }
  }

  /** A row that a query reads is in the query's own bucket, under the name it asks for. */
  lemma RowsMeet(cfg: Config, u1: Bytes, n1: Bytes, s1: Segment, i1: int, labels: Metric, id: Bytes, ln: Option<Bytes>, e: Entry,
                 u2: Bytes, n2: Bytes, s2: Segment, i2: int, l: Lookup)
    requires ValidConfig(cfg) && Free(u1, COLON) && Free(u2, COLON)
    requires IsRow(BucketAt(cfg, u1, n1, s1, i1), labels, id, ln, e)
    requires ReadQuery(BucketAt(cfg, u2, n2, s2, i2), l).Some?
    requires Finds(ReadQuery(BucketAt(cfg, u2, n2, s2, i2), l).value, e)
    ensures u1 == u2 && i1 == i2 && (s1.version == V1 <==> s2.version == V1)
    ensures RowName(s1.version, n1, ln) == RowName(s2.version, n2, LabelOf(l))
  {
    var w, r := BucketAt(cfg, u1, n1, s1, i1), BucketAt(cfg, u2, n2, s2, i2);
    var b1, b2 := BucketName(s1.version, i1), BucketName(s2.version, i2);
    BucketNameFree(s1.version, i1);
    BucketNameFree(s2.version, i2);
    RowHash(u1, b1, n1, w, labels, id, ln, e);
    AskHash(u2, b2, n2, r, l);
    SameUserAndBucket(u1, b1, RowName(s1.version, n1, ln), u2, b2, RowName(s2.version, n2, LabelOf(l)));
    BucketNameInjective(s1.version, i1, s2.version, i2);
  }

  /** Offsets within a day begin with a zero. */
  lemma DayBeginsWithZero(t: Uint32)
    requires t <= MS_IN_DAY
    ensures EncodeTime(t)[0] == ZERO
  {
    assert ByteOf(t, 3) <= 5;
  }

  /** A label row that a label scan takes in is of the label and the metric asked for; or it is an
      old row of a metric named like the one asked for, a colon and the label. */
  lemma LabelScan(w: Bucket, n1: Bytes, ln: Bytes, value: Bytes, id: Bytes, r: Bucket, n2: Bytes, l: Lookup)
    requires !l.ByMetric? && ReadQuery(r, l).Some? && (w.version == V1 <==> r.version == V1)
    requires GoodLabel(n1, ln) && GoodLabel(n2, l.ln) && (w.version != V1 ==> w.through <= MS_IN_DAY)
    requires RowName(w.version, n1, Some(ln)) == RowName(r.version, n2, Some(l.ln))
    requires ReadQuery(r, l).value.Scans(LabelEntry(w, ln, value, id).rangeValue)
    ensures (n1 == n2 && ln == l.ln)
            || (n1 == n2 + [COLON] + l.ln && w.version in {V2, V3} && IsNew(r.version) && (r.version == V4 ==> !l.ByValue?))
  {
    var row := LabelEntry(w, ln, value, id).rangeValue;
    LabelRowHead(w, ln, value, id);
    if IsNew(w.version) && IsNew(r.version) {
      LastPart(n1, ln, n2, l.ln, COLON);
    } else if IsNew(r.version) {
      assert n1[|n2|] == COLON;
      if r.version == V4 && l.ByValue? {
        PrefixScanHead(r, l, row, ln);
      }
    } else {
      EncodeTimeDigits(w.through);
      PrefixScanHead(r, l, row, if IsNew(w.version) then Head(w) else ln);
      if IsNew(w.version) {
        assert n2[|n1|] == COLON;
        DayBeginsWithZero(w.through);
      }
    }
  }

  /** Such old rows are read: a valid label sorts above every offset. */
  lemma OldRowScanned(w: Bucket, ln: Bytes, value: Bytes, id: Bytes, r: Bucket, l: Lookup)
    requires w.version in {V2, V3} && IsNew(r.version) && !l.ByMetric? && (r.version == V4 ==> !l.ByValue?)
    requires PlainLabel(ln) && r.from <= MS_IN_DAY
    ensures ReadQuery(r, l).Some? && ReadQuery(r, l).value.Scans(LabelEntry(w, ln, value, id).rangeValue)
  {
    if r.version == V6 {
      LabelRowHead(w, ln, value, id);
      var row := LabelEntry(w, ln, value, id).rangeValue;
      var rest :| row == RangeKey([ln] + rest);
      RangeKeyCons(ln, rest);
      RangeKeyCons(EncodeTime(r.from), []);
      assert [EncodeTime(r.from)] + [] == [EncodeTime(r.from)];
      DayBeginsWithZero(r.from);
      var start := RangeKey([EncodeTime(r.from)]);
      assert start[0] == ZERO && row[0] == ln[0];
      LessTrichotomy(start, row);
    }
  }

  /** A chunk leaves no trace in a bucket exactly when the bucket is older than v4 and the
      chunk has no label besides its name. */
  lemma NothingWritten(b: Bucket, labels: Metric, id: Bytes)
    ensures WriteRows(b, labels, id) == {} <==> b.version in {V1, V2, V3} && labels.Keys <= {METRIC_NAME}
  {
    if ln :| ln in labels && ln != METRIC_NAME {
      assert LabelEntry(b, ln, labels[ln], id) in WriteRows(b, labels, id);
    }
  }
}
