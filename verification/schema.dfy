/** The chunk index schemas: how an interval of time is cut up by schema version and
    then by bucket, and which index rows each version writes and reads for a bucket. */
module Schema {
  import opened ByteStrings
  import opened Delimited
  import opened Numerals
  import opened RangeKeys
  import opened Storage
  import Base64

  /** `model.Latest`, in milliseconds. */
  const LATEST: int := TWO_63 - 1

  const SECONDS_IN_HOUR := 3600
  const SECONDS_IN_DAY := 86400
  const MS_IN_HOUR := 3_600_000
  const MS_IN_DAY := 86_400_000

  /** `__name__` */
  const METRIC_NAME: Bytes := [95, 95, 110, 97, 109, 101, 95, 95]

  type Metric = map<Bytes, Bytes>

  datatype Version = V1 | V2 | V3 | V4 | V5 | V6

  /** The table settings of a schema configuration; times and periods in seconds. */
  datatype Config = Config(usePeriodicTables: bool, periodicTableStart: int, tablePrefix: Bytes,
                           originalTableName: Bytes, tablePeriod: int)

  ghost predicate ValidConfig(cfg: Config) {
    cfg.usePeriodicTables ==> cfg.tablePeriod > 0
  }

  /** Integer division as Go does it: towards zero. */
  function GoDiv(a: int, b: int): int
    requires b > 0
  {
    if a >= 0 then a / b else -((-a) / b)
  }

  /** A conversion to uint32 keeps the low 32 bits. */
  function ToUint32(i: int): Uint32 {
    i % TWO_32
  }

  function Min(a: int, b: int): int {
    if a < b then a else b
  }

  function Max(a: int, b: int): int {
    if a > b then a else b
  }

  /** tableForBucket. */
  function TableForBucket(cfg: Config, bucketStart: int): Bytes
    requires ValidConfig(cfg)
  {
    if !cfg.usePeriodicTables || bucketStart < cfg.periodicTableStart then cfg.originalTableName
    else cfg.tablePrefix + FormatSigned(GoDiv(bucketStart, cfg.tablePeriod), 10)
  }

  // -------------------------------------------------- schemas over time

  datatype SchemaEntry = SchemaEntry(start: int, version: Version)

  ghost predicate SortedSchemas(schemas: seq<SchemaEntry>) {
    forall i, j :: 0 <= i <= j < |schemas| ==> schemas[i].start <= schemas[j].start
  }

  predicate AdjacentSorted(schemas: seq<SchemaEntry>) {
    forall i :: 0 < i < |schemas| ==> schemas[i - 1].start <= schemas[i].start
  }

  lemma {:induction false} AdjacentSortedIsSorted(schemas: seq<SchemaEntry>)
    requires AdjacentSorted(schemas)
    ensures SortedSchemas(schemas)
  {
    if schemas != [] {
      var front := schemas[..|schemas| - 1];
      AdjacentSortedIsSorted(front);
      forall i | 0 <= i < |schemas| - 1 ensures schemas[i].start <= schemas[|schemas| - 1].start {
        assert front[i].start <= front[|front| - 1].start;
      }
      forall i, j | 0 <= i <= j < |schemas| ensures schemas[i].start <= schemas[j].start {
        if j < |front| {
          assert front[i].start <= front[j].start;
        }
      }
    }
  }

  function Enabled(start: Option<int>, v: Version): seq<SchemaEntry> {
    if start.Some? then [SchemaEntry(start.value, v)] else []
  }

  /** newCompositeSchema: v1 from the epoch on, then whichever later versions have a start
      date; None when the dates are not in version order. */
  function NewComposite(v2: Option<int>, v3: Option<int>, v4: Option<int>, v5: Option<int>, v6: Option<int>)
    : (r: Option<seq<SchemaEntry>>)
    ensures r.Some? ==> |r.value| >= 1 && r.value[0].start == 0 && AdjacentSorted(r.value)
  {
    var schemas := [SchemaEntry(0, V1)] + Enabled(v2, V2) + Enabled(v3, V3) + Enabled(v4, V4)
                   + Enabled(v5, V5) + Enabled(v6, V6);
    if AdjacentSorted(schemas) then Some(schemas) else None
  }

  /** An interval handed to one schema, both ends included. */
  datatype Segment = Segment(from: int, through: int, version: Version)

  function NextStart(schemas: seq<SchemaEntry>, i: nat): int
    requires i < |schemas|
  {
    if i + 1 < |schemas| then schemas[i + 1].start else LATEST
  }

  /** Schemas in order, none starting at the end of time. */
  predicate ValidSchemas(schemas: seq<SchemaEntry>) {
    schemas != [] && AdjacentSorted(schemas) && schemas[|schemas| - 1].start < LATEST
  }

  /** What the loop of forSchemas does from index `i` on. */
  function SegmentsFrom(schemas: seq<SchemaEntry>, i: nat, j: nat, start: int, through: int): seq<Segment>
    requires i <= j <= |schemas|
    decreases j - i
  {
    if i == j then []
    else
      var next := NextStart(schemas, i);
      if next == schemas[i].start then SegmentsFrom(schemas, i + 1, j, start, through)
      else [Segment(start, Min(through, next - 1), schemas[i].version)]
           + SegmentsFrom(schemas, i + 1, j, next, through)
  }

  /** How many schemas have started at `t`. */
  function Started(schemas: seq<SchemaEntry>, t: int): (n: nat)
    requires AdjacentSorted(schemas)
    ensures n <= |schemas|
    ensures forall k :: 0 <= k < |schemas| ==> (schemas[k].start <= t <==> k < n)
  {
    if schemas == [] then 0
    else
      var front := schemas[..|schemas| - 1];
      var n := Started(front, t);
      AdjacentSortedIsSorted(schemas);
      assert forall k :: 0 <= k < |front| ==> front[k] == schemas[k];
      if schemas[|schemas| - 1].start <= t then |schemas| else n
  }

  /** The schema in force at `t`: the last one that has started. */
  function VersionAt(schemas: seq<SchemaEntry>, t: int): Version
    requires AdjacentSorted(schemas) && schemas != [] && schemas[0].start <= t
  {
    schemas[Started(schemas, t) - 1].version
  }

  /** The segments forSchemas visits. */
  function Segments(schemas: seq<SchemaEntry>, from: int, through: int): seq<Segment>
    requires AdjacentSorted(schemas) && from <= through
  {
    if schemas == [] then []
    else
      var i, j := Started(schemas, from), Started(schemas, through);
      assert i > 0 ==> schemas[i - 1].start <= from;
      if i > 0 then SegmentsFrom(schemas, i - 1, j, from, through)
      else SegmentsFrom(schemas, 0, j, schemas[0].start, through)
  }

  /** forSchemas, with the callback invocations returned in the order they are made. */
  method ForSchemas(schemas: seq<SchemaEntry>, from: int, through: int) returns (result: seq<Segment>)
    requires AdjacentSorted(schemas) && from <= through
    ensures result == Segments(schemas, from, through)
  {
    if schemas == [] {
      return [];
    }
    var i := SearchStart(schemas, from);
    var j := SearchStart(schemas, through);
    if i > 0 {
      assert schemas[i - 1].start <= from;
      result := SchemaLoop(schemas, i - 1, j, from, through);
    } else {
      result := SchemaLoop(schemas, 0, j, schemas[0].start, through);
    }
  }

  /** The loop of forSchemas. */
  method SchemaLoop(schemas: seq<SchemaEntry>, first: nat, j: nat, from: int, through: int)
    returns (result: seq<Segment>)
    requires first <= j <= |schemas|
    ensures result == SegmentsFrom(schemas, first, j, from, through)
  {
    result := [];
    var i, start := first, from;
    while i < j
      invariant first <= i <= j
      invariant SegmentsFrom(schemas, first, j, from, through) == result + SegmentsFrom(schemas, i, j, start, through)
    {
      var next := NextStart(schemas, i);
      if next != schemas[i].start {
        result := result + [Segment(start, Min(through, next - 1), schemas[i].version)];
        start := next;
      }
      i := i + 1;
    }
  }

  /** `sort.Search` for the first schema that starts after `t`. */
  method SearchStart(schemas: seq<SchemaEntry>, t: int) returns (n: nat)
    requires AdjacentSorted(schemas)
    ensures n == Started(schemas, t)
  {
    AdjacentSortedIsSorted(schemas);
    var f := (k: int) requires 0 <= k < |schemas| => schemas[k].start > t;
    n := Search(|schemas|, f);
    assert n < |schemas| ==> f(n) && schemas[n].start > t;
    assert n > 0 ==> !f(n - 1) && schemas[n - 1].start <= t;
  }

  /** The segments cover [lo, hi] without gap or overlap, and each one lies inside the
      reign of the version it is given to. */
  ghost predicate Partitions(schemas: seq<SchemaEntry>, lo: int, hi: int, segs: seq<Segment>)
    requires AdjacentSorted(schemas) && schemas != [] && schemas[0].start <= lo
    decreases |segs|
  {
    if segs == [] then lo > hi
    else
      && segs[0].from == lo <= segs[0].through <= hi
      && (forall t :: lo <= t <= segs[0].through ==> VersionAt(schemas, t) == segs[0].version)
      && Partitions(schemas, segs[0].through + 1, hi, segs[1..])
  }

  lemma {:induction false} SegmentsFromPartition(schemas: seq<SchemaEntry>, i: nat, j: nat, start: int, through: int)
    requires ValidSchemas(schemas) && i <= j == Started(schemas, through)
    requires i < j ==> schemas[i].start <= start <= through && start < LATEST
    requires i < j ==> start < NextStart(schemas, i) || start == schemas[i].start == NextStart(schemas, i)
    requires i == j ==> start > Min(through, LATEST - 1)
    requires schemas[0].start <= start
    ensures Partitions(schemas, start, Min(through, LATEST - 1), SegmentsFrom(schemas, i, j, start, through))
    decreases j - i
  {
    if i < j {
      AdjacentSortedIsSorted(schemas);
      var next := NextStart(schemas, i);
      if next == schemas[i].start {
        assert i + 1 < |schemas| && i + 1 < j;
        SegmentsFromPartition(schemas, i + 1, j, start, through);
      } else {
        var seg := Segment(start, Min(through, next - 1), schemas[i].version);
        forall t | start <= t <= seg.through ensures VersionAt(schemas, t) == seg.version {
          assert Started(schemas, t) == i + 1;
        }
        SegmentsFromPartition(schemas, i + 1, j, next, through);
        PartitionFromEnd(schemas, seg.through + 1, next, Min(through, LATEST - 1),
                         SegmentsFrom(schemas, i + 1, j, next, through));
      }
    }
  }

  lemma PartitionFromEnd(schemas: seq<SchemaEntry>, lo: int, next: int, hi: int, segs: seq<Segment>)
    requires AdjacentSorted(schemas) && schemas != [] && schemas[0].start <= lo <= next
    requires Partitions(schemas, next, hi, segs)
    requires lo == next || (lo > hi)
    ensures Partitions(schemas, lo, hi, segs)
  {
  }

  /** A time that some schema has started at is before the next schema's start. */
  lemma FromReign(schemas: seq<SchemaEntry>, t: int)
    requires ValidSchemas(schemas) && schemas[0].start <= t < LATEST
    ensures var i := Started(schemas, t); 0 < i && schemas[i - 1].start <= t < NextStart(schemas, i - 1)
  {
    var i := Started(schemas, t);
    assert i < |schemas| ==> t < schemas[i].start;
  }

  /** forSchemas partitions the requested interval, cut off at the first schema's start and
      just before `model.Latest`, among the schemas in force. */
  lemma SegmentsPartition(schemas: seq<SchemaEntry>, from: int, through: int)
    requires ValidSchemas(schemas) && from <= through && from < LATEST
    ensures Partitions(schemas, Max(from, schemas[0].start), Min(through, LATEST - 1), Segments(schemas, from, through))
  {
    var i, j := Started(schemas, from), Started(schemas, through);
    if i > 0 {
      assert schemas[i - 1].start <= from && schemas[0].start <= from;
      assert i <= j;
      FromReign(schemas, from);
      SegmentsFromPartition(schemas, i - 1, j, from, through);
    } else if j > 0 {
      AdjacentSortedIsSorted(schemas);
      SegmentsFromPartition(schemas, 0, j, schemas[0].start, through);
    }
  }

  /** Every instant of a partitioned interval is in a segment of the version in force. */
  lemma {:induction false} PartitionCovers(schemas: seq<SchemaEntry>, lo: int, hi: int, segs: seq<Segment>, t: int)
    returns (k: nat)
    requires AdjacentSorted(schemas) && schemas != [] && schemas[0].start <= lo <= t <= hi
    requires Partitions(schemas, lo, hi, segs)
    ensures k < |segs| && segs[k].from <= t <= segs[k].through && segs[k].version == VersionAt(schemas, t)
    ensures lo <= segs[k].from && segs[k].through <= hi
    decreases |segs|
  {
    if t <= segs[0].through {
      k := 0;
    } else {
      k := PartitionCovers(schemas, segs[0].through + 1, hi, segs[1..], t);
      k := k + 1;
    }
  }

  /** Every segment of a partition is a non-empty part of the interval. */
  lemma {:induction false} PartitionBounds(schemas: seq<SchemaEntry>, lo: int, hi: int, segs: seq<Segment>)
    requires AdjacentSorted(schemas) && schemas != [] && schemas[0].start <= lo
    requires Partitions(schemas, lo, hi, segs)
    ensures forall s :: s in segs ==> lo <= s.from <= s.through <= hi && VersionAt(schemas, s.from) == s.version
    decreases |segs|
  {
    if segs != [] {
      PartitionBounds(schemas, segs[0].through + 1, hi, segs[1..]);
      assert segs == [segs[0]] + segs[1..];
      assert VersionAt(schemas, segs[0].from) == segs[0].version;
    }
  }

  // -------------------------------------------------- buckets

  /** One invocation of a bucket callback. */
  datatype Bucket = Bucket(version: Version, from: Uint32, through: Uint32, table: Bytes, hash: Bytes)

  const DAY_MARK: Byte := 100

  function BucketName(v: Version, i: int): Bytes {
    if v == V1 then FormatSigned(i, 10) else [DAY_MARK] + FormatSigned(i, 10)
  }

  /** `<user>:<bucket>:<metric name>`, hourly for v1 and daily from v2 on. */
  function HashKey(user: Bytes, bucket: Bytes, name: Bytes): Bytes {
    user + [COLON] + (bucket + [COLON] + name)
  }

  function Unix(t: int): int {
    GoDiv(t, 1000)
  }

  function BucketIndex(v: Version, t: int): int {
    GoDiv(Unix(t), if v == V1 then SECONDS_IN_HOUR else SECONDS_IN_DAY)
  }

  function BucketAt(cfg: Config, user: Bytes, name: Bytes, seg: Segment, i: int): Bucket
    requires ValidConfig(cfg)
  {
    if seg.version == V1 then
      Bucket(V1, ToUint32(Max(0, seg.from - i * MS_IN_HOUR)), ToUint32(Min(MS_IN_HOUR, seg.through - i * MS_IN_DAY)),
             TableForBucket(cfg, i * SECONDS_IN_HOUR), HashKey(user, BucketName(V1, i), name))
    else
      Bucket(seg.version, ToUint32(Max(0, seg.from - i * MS_IN_DAY)), ToUint32(Min(MS_IN_DAY, seg.through - i * MS_IN_DAY)),
             TableForBucket(cfg, i * SECONDS_IN_DAY), HashKey(user, BucketName(seg.version, i), name))
  }

  /** The buckets of one segment, first to last. */
  function BucketsOf(cfg: Config, user: Bytes, name: Bytes, seg: Segment): seq<Bucket>
    requires ValidConfig(cfg)
  {
    var lo, hi := BucketIndex(seg.version, seg.from), BucketIndex(seg.version, seg.through);
    if lo > hi then [] else seq(hi - lo + 1, k => BucketAt(cfg, user, name, seg, lo + k))
  }

  /** hourlyBuckets and dailyBuckets, with the callback invocations returned in order. */
  method BucketLoop(cfg: Config, user: Bytes, name: Bytes, seg: Segment) returns (result: seq<Bucket>)
    requires ValidConfig(cfg)
    ensures result == BucketsOf(cfg, user, name, seg)
  {
    var first, last := BucketIndex(seg.version, seg.from), BucketIndex(seg.version, seg.through);
    result := [];
    var i := first;
    while i <= last
      invariant first <= i <= Max(first, last + 1)
      invariant |result| == i - first
      invariant forall k :: 0 <= k < |result| ==> result[k] == BucketAt(cfg, user, name, seg, first + k)
    {
      result := result + [BucketAt(cfg, user, name, seg, i)];
      i := i + 1;
    }
  }

  function AllBuckets(cfg: Config, user: Bytes, name: Bytes, segs: seq<Segment>): seq<Bucket>
    requires ValidConfig(cfg)
  {
    if segs == [] then [] else BucketsOf(cfg, user, name, segs[0]) + AllBuckets(cfg, user, name, segs[1..])
  }

  lemma {:induction false} AllBucketsAppend(cfg: Config, user: Bytes, name: Bytes, segs: seq<Segment>, seg: Segment)
    requires ValidConfig(cfg)
    ensures AllBuckets(cfg, user, name, segs + [seg])
         == AllBuckets(cfg, user, name, segs) + BucketsOf(cfg, user, name, seg)
  {
    if segs == [] {
      assert segs + [seg] == [seg] && [seg][1..] == [];
    } else {
      assert (segs + [seg])[1..] == segs[1..] + [seg];
      AllBucketsAppend(cfg, user, name, segs[1..], seg);
    }
  }

  /** The buckets a composite schema visits for an interval. */
  function Buckets(cfg: Config, schemas: seq<SchemaEntry>, user: Bytes, name: Bytes, from: int, through: int): seq<Bucket>
    requires ValidConfig(cfg) && AdjacentSorted(schemas) && from <= through
  {
    AllBuckets(cfg, user, name, Segments(schemas, from, through))
  }

  method VisitBuckets(cfg: Config, schemas: seq<SchemaEntry>, user: Bytes, name: Bytes, from: int, through: int)
    returns (result: seq<Bucket>)
    requires ValidConfig(cfg) && AdjacentSorted(schemas) && from <= through
    ensures result == Buckets(cfg, schemas, user, name, from, through)
  {
    var segs := ForSchemas(schemas, from, through);
    result := VisitSegments(cfg, user, name, segs);
  }

  method VisitSegments(cfg: Config, user: Bytes, name: Bytes, segs: seq<Segment>) returns (result: seq<Bucket>)
    requires ValidConfig(cfg)
    ensures result == AllBuckets(cfg, user, name, segs)
  {
    result := [];
    for k := 0 to |segs|
      invariant result == AllBuckets(cfg, user, name, segs[..k])
    {
      var more := BucketLoop(cfg, user, name, segs[k]);
      AllBucketsAppend(cfg, user, name, segs[..k], segs[k]);
      assert segs[..k + 1] == segs[..k] + [segs[k]];
      result := result + more;
    }
    assert segs[..|segs|] == segs;
  }

  lemma {:induction false} AllBucketsMember(cfg: Config, user: Bytes, name: Bytes, segs: seq<Segment>, b: Bucket)
    returns (seg: Segment, i: int)
    requires ValidConfig(cfg) && b in AllBuckets(cfg, user, name, segs)
    ensures seg in segs && b == BucketAt(cfg, user, name, seg, i)
    ensures BucketIndex(seg.version, seg.from) <= i <= BucketIndex(seg.version, seg.through)
  {
    var first := BucketsOf(cfg, user, name, segs[0]);
    if b in first {
      var k :| 0 <= k < |first| && first[k] == b;
      seg, i := segs[0], BucketIndex(segs[0].version, segs[0].from) + k;
    } else {
      seg, i := AllBucketsMember(cfg, user, name, segs[1..], b);
    }
  }

  lemma {:induction false} AllBucketsContains(cfg: Config, user: Bytes, name: Bytes, segs: seq<Segment>, k: nat, i: int)
    requires ValidConfig(cfg) && k < |segs|
    requires BucketIndex(segs[k].version, segs[k].from) <= i <= BucketIndex(segs[k].version, segs[k].through)
    ensures BucketAt(cfg, user, name, segs[k], i) in AllBuckets(cfg, user, name, segs)
  {
    if k == 0 {
      var bs := BucketsOf(cfg, user, name, segs[0]);
      var n := i - BucketIndex(segs[0].version, segs[0].from);
      assert bs[n] == BucketAt(cfg, user, name, segs[0], i);
    } else {
      AllBucketsContains(cfg, user, name, segs[1..], k - 1, i);
    }
  }

  // -------------------------------------------------- rows of a bucket

  /** `hashKey + ":" + label`, from v4 on. */
  function LabelHash(b: Bucket, ln: Bytes): Bytes {
    if b.version in {V1, V2, V3} then b.hash else b.hash + [COLON] + ln
  }

  /** The row a label of a chunk gets in a bucket. */
  function LabelEntry(b: Bucket, ln: Bytes, value: Bytes, id: Bytes): Entry {
    var encoded := Base64.Encode(value);
    var time := EncodeTime(b.through);
    match b.version
    case V1 | V2 => Entry(b.table, LabelHash(b, ln), RangeKey([ln, value, id]), None)
    case V3 => Entry(b.table, LabelHash(b, ln), RangeKey([ln, encoded, id, VERSION_1]), None)
    case V4 => Entry(b.table, LabelHash(b, ln), RangeKey([[], encoded, id, VERSION_1]), None)
    case V5 => Entry(b.table, LabelHash(b, ln), RangeKey([time, encoded, id, VERSION_4]), None)
    case V6 => Entry(b.table, LabelHash(b, ln), RangeKey([time, [], id, VERSION_5]), Some(value))
  }

  /** The rows a chunk gets whatever its labels: none before v4. */
  function MetricEntries(b: Bucket, id: Bytes): set<Entry> {
    match b.version
    case V1 | V2 | V3 => {}
    case V4 => {Entry(b.table, b.hash, RangeKey([[], [], id, VERSION_2]), None)}
    case V5 | V6 => {Entry(b.table, b.hash, RangeKey([EncodeTime(b.through), [], id, VERSION_3]), None)}
  }

  /** GetWriteEntries of the entry builders, as a set: the order is that of a map range. */
  function WriteRows(b: Bucket, labels: Metric, id: Bytes): set<Entry> {
    MetricEntries(b, id) + LabelRows(b, labels, id, labels.Keys)
  }

  function LabelRows(b: Bucket, labels: Metric, id: Bytes, names: set<Bytes>): set<Entry>
    requires names <= labels.Keys
  {
    set ln | ln in names && ln != METRIC_NAME :: LabelEntry(b, ln, labels[ln], id)
  }

  /** v1 and v2 refuse label values with a NUL byte. */
  predicate WriteRefused(b: Bucket, labels: Metric) {
    b.version in {V1, V2} && exists ln :: ln in labels && ln != METRIC_NAME && !Free(labels[ln], NUL)
  }

  /** Rows of different labels go to different places, and so does a chunk's own row. */
  lemma LabelPlaces(b: Bucket, l1: Bytes, v1: Bytes, l2: Bytes, v2: Bytes, id: Bytes)
    requires Free(l1, NUL) && Free(l2, NUL) && SamePlace(LabelEntry(b, l1, v1, id), LabelEntry(b, l2, v2, id))
    ensures l1 == l2
  {
    match b.version {
      case V1 | V2 => FirstComponent([l1, v1, id], [l2, v2, id]);
      case V3 => FirstComponent([l1, Base64.Encode(v1), id, VERSION_1], [l2, Base64.Encode(v2), id, VERSION_1]);
      case _ =>
        assert (b.hash + [COLON] + l1)[|b.hash| + 1..] == l1;
        assert (b.hash + [COLON] + l2)[|b.hash| + 1..] == l2;
    }
  }

  lemma FirstComponent(p: seq<Bytes>, q: seq<Bytes>)
    requires p != [] && q != [] && Free(p[0], NUL) && Free(q[0], NUL) && RangeKey(p) == RangeKey(q)
    ensures p[0] == q[0]
  {
    assert p == [p[0]] + p[1..] && q == [q[0]] + q[1..];
    RangeKeyCons(p[0], p[1..]);
    RangeKeyCons(q[0], q[1..]);
    FirstPart(p[0], RangeKey(p[1..]), q[0], RangeKey(q[1..]), NUL);
  }

  lemma OwnPlace(b: Bucket, ln: Bytes, value: Bytes, id: Bytes, e: Entry)
    requires e in MetricEntries(b, id)
    ensures !SamePlace(e, LabelEntry(b, ln, value, id))
  {
    assert |e.hash| < |LabelEntry(b, ln, value, id).hash|;
  }

  /** So the row of one more label goes to a place of its own. */
  lemma OneMorePlace(b: Bucket, labels: Metric, id: Bytes, names: set<Bytes>, ln: Bytes, done: seq<Entry>)
    requires names <= labels.Keys && ln in labels && ln !in names && NoClash(done)
    requires forall x :: x in labels ==> Free(x, NUL)
    requires forall e :: e in done ==> e in MetricEntries(b, id) || e in LabelRows(b, labels, id, names)
    ensures NoClash(done + [LabelEntry(b, ln, labels[ln], id)])
  {
    var f := LabelEntry(b, ln, labels[ln], id);
    forall m | 0 <= m < |done| ensures !SamePlace(done[m], f) {
      assert done[m] in done;
      if done[m] in MetricEntries(b, id) {
        OwnPlace(b, ln, labels[ln], id, done[m]);
      } else {
        var x :| x in names && x != METRIC_NAME && done[m] == LabelEntry(b, x, labels[x], id);
        if SamePlace(done[m], f) {
          LabelPlaces(b, x, labels[x], ln, labels[ln], id);
        }
      }
    }
    NoClashAppend(done, [f]);
  }

  /** The loop of the entry builders over the labels of a chunk. */
  method WriteEntries(b: Bucket, labels: Metric, id: Bytes) returns (r: Option<seq<Entry>>)
    ensures r.None? <==> WriteRefused(b, labels)
    ensures r.Some? ==> forall e :: e in r.value <==> e in WriteRows(b, labels, id)
    ensures r.Some? && (forall ln :: ln in labels ==> Free(ln, NUL)) ==> NoClash(r.value)
  {
    var result: seq<Entry> := [];
    match b.version {
      case V1 | V2 | V3 =>
      case V4 =>
        result := [Entry(b.table, b.hash, RangeKey([[], [], id, VERSION_2]), None)];
      case V5 | V6 =>
        result := [Entry(b.table, b.hash, RangeKey([EncodeTime(b.through), [], id, VERSION_3]), None)];
    }
    assert forall e :: e in result <==> e in MetricEntries(b, id);
    var left := labels.Keys;
    while left != {}
      invariant left <= labels.Keys
      invariant b.version in {V1, V2} ==>
          forall ln :: ln in labels.Keys - left && ln != METRIC_NAME ==> Free(labels[ln], NUL)
      invariant forall e :: e in result <==> (e in MetricEntries(b, id) || e in LabelRows(b, labels, id, labels.Keys - left))
      invariant (forall x :: x in labels ==> Free(x, NUL)) ==> NoClash(result)
    {
      var ln :| ln in left;
      ghost var done := labels.Keys - left;
      left := left - {ln};
      assert labels.Keys - left == done + {ln};
      if ln != METRIC_NAME {
        if b.version in {V1, V2} && !Free(labels[ln], NUL) {
          return None;
        }
        if forall x :: x in labels ==> Free(x, NUL) {
          OneMorePlace(b, labels, id, done, ln, result);
        }
        result := result + [LabelEntry(b, ln, labels[ln], id)];
      }
    }
    r := Some(result);
  }

  /** What a read asks a schema for. */
  datatype Lookup = ByMetric | ByLabel(ln: Bytes) | ByValue(ln: Bytes, value: Bytes)

  /** GetReadMetricEntries, GetReadMetricLabelEntries and GetReadMetricLabelValueEntries;
      None where v1 and v2 refuse a label value with a NUL byte. */
  function ReadQuery(b: Bucket, l: Lookup): Option<Query> {
    match b.version
    case V1 | V2 | V3 =>
      (match l
       case ByMetric => Some(Query(b.table, b.hash, None, None))
       case ByLabel(ln) => Some(Query(b.table, b.hash, Some(RangeKey([ln])), None))
       case ByValue(ln, value) =>
         if b.version == V3 then Some(Query(b.table, b.hash, Some(RangeKey([ln, Base64.Encode(value)])), None))
         else if Free(value, NUL) then Some(Query(b.table, b.hash, Some(RangeKey([ln, value])), None))
         else None)
    case V4 =>
      (match l
       case ByMetric => Some(Query(b.table, b.hash, None, None))
       case ByLabel(ln) => Some(Query(b.table, LabelHash(b, ln), None, None))
       case ByValue(ln, value) =>
         Some(Query(b.table, LabelHash(b, ln), Some(RangeKey([[], Base64.Encode(value)])), None)))
    case V5 =>
      (match l
       case ByMetric => Some(Query(b.table, b.hash, None, None))
       case ByLabel(ln) => Some(Query(b.table, LabelHash(b, ln), None, None))
       case ByValue(ln, _) => Some(Query(b.table, LabelHash(b, ln), None, None)))
    case V6 =>
      var start := Some(RangeKey([EncodeTime(b.from)]));
      (match l
       case ByMetric => Some(Query(b.table, b.hash, None, start))
       case ByLabel(ln) => Some(Query(b.table, LabelHash(b, ln), None, start))
       case ByValue(ln, _) => Some(Query(b.table, LabelHash(b, ln), None, start)))
  }
}
