/** Where the rows of chunks go: when two of them would go to one place of the index, which refuses
    the second. */
module Placement {
  import opened ByteStrings
  import opened Delimited
  import opened ExternalKeys
  import opened RangeKeys
  import opened Storage
  import opened Schema
  import opened SchemaCoverage
  import opened ChunkIndex
  import Base64
  import Composite

  /** A row of the one bucket goes to the place of a row of the other. */
  ghost predicate RowsClash(b1: Bucket, b2: Bucket, labels: Metric, id: Bytes) {
    exists e, f :: e in WriteRows(b1, labels, id) && f in WriteRows(b2, labels, id) && SamePlace(e, f)
  }

  /** No two buckets have rows for one place. */
  ghost predicate BucketsClear(bs: seq<Bucket>, labels: Metric, id: Bytes) {
    forall m, n :: 0 <= m < n < |bs| ==> !RowsClash(bs[m], bs[n], labels, id)
  }

  lemma ClearAppend(a: seq<Bucket>, b: Bucket, labels: Metric, id: Bytes)
    ensures BucketsClear(a + [b], labels, id) <==>
            BucketsClear(a, labels, id) && forall m :: 0 <= m < |a| ==> !RowsClash(a[m], b, labels, id)
  {
    var s := a + [b];
    assert forall m :: 0 <= m < |a| ==> s[m] == a[m];
    assert s[|a|] == b;
    if BucketsClear(s, labels, id) {
      forall m | 0 <= m < |a| ensures !RowsClash(a[m], b, labels, id) {
        assert !RowsClash(s[m], s[|a|], labels, id);
      }
      forall m, n | 0 <= m < n < |a| ensures !RowsClash(a[m], a[n], labels, id) {
        assert !RowsClash(s[m], s[n], labels, id);
      }
    }
  }

  /** The entries are exactly the rows of the buckets. */
  ghost predicate RowsOf(bs: seq<Bucket>, labels: Metric, id: Bytes, entries: seq<Entry>) {
    forall e :: e in entries <==> exists w :: w in bs && e in WriteRows(w, labels, id)
  }

  lemma RowsOfOneMore(bs: seq<Bucket>, b: Bucket, labels: Metric, id: Bytes, entries: seq<Entry>, more: seq<Entry>)
    requires RowsOf(bs, labels, id, entries) && forall e :: e in more <==> e in WriteRows(b, labels, id)
    ensures RowsOf(bs + [b], labels, id, entries + more)
  {
    assert forall w :: w in bs + [b] <==> w in bs || w == b;
  }

  ghost predicate AllTaken(bs: seq<Bucket>, n: nat, labels: Metric)
    requires n <= |bs|
  {
    n == 0 || (AllTaken(bs, n - 1, labels) && !WriteRefused(bs[n - 1], labels))
  }

  lemma {:induction false} AllTakenAt(bs: seq<Bucket>, n: nat, labels: Metric, k: nat)
    requires k < n <= |bs| && AllTaken(bs, n, labels)
    ensures !WriteRefused(bs[k], labels)
  {
    if k < n - 1 {
      AllTakenAt(bs, n - 1, labels, k);
    }
  }

  ghost predicate SomeRefuses(bs: seq<Bucket>, labels: Metric) {
    exists b :: b in bs && WriteRefused(b, labels)
  }

  lemma AllTakenMeans(bs: seq<Bucket>, labels: Metric)
    requires AllTaken(bs, |bs|, labels)
    ensures !SomeRefuses(bs, labels)
  {
    forall k | 0 <= k < |bs| ensures !WriteRefused(bs[k], labels) {
      AllTakenAt(bs, |bs|, labels, k);
    }
  }

  lemma OneRefuses(bs: seq<Bucket>, n: nat, labels: Metric)
    requires n < |bs| && WriteRefused(bs[n], labels)
    ensures SomeRefuses(bs, labels)
  {
    assert bs[n] in bs;
  }

  /** What collecting the entries of the first buckets has come to. */
  ghost predicate Gathered(bs: seq<Bucket>, n: nat, labels: Metric, id: Bytes, entries: seq<Entry>)
    requires n <= |bs|
  {
    && AllTaken(bs, n, labels)
    && RowsOf(bs[..n], labels, id, entries)
    && (NoClash(entries) <==> BucketsClear(bs[..n], labels, id))
  }

  lemma GatheredOneMore(bs: seq<Bucket>, n: nat, labels: Metric, id: Bytes, entries: seq<Entry>, more: seq<Entry>)
    requires n < |bs| && Gathered(bs, n, labels, id, entries) && !WriteRefused(bs[n], labels)
    requires (forall e :: e in more <==> e in WriteRows(bs[n], labels, id)) && NoClash(more)
    ensures Gathered(bs, n + 1, labels, id, entries + more)
  {
    assert bs[..n + 1] == bs[..n] + [bs[n]];
    RowsOfOneMore(bs[..n], bs[n], labels, id, entries, more);
    CollectedPlaces(bs[..n], bs[n], labels, id, entries, more);
  }

  /** The entries of the buckets, one after the other. */
  method EntriesOfBuckets(bs: seq<Bucket>, labels: Metric, id: Bytes) returns (r: Option<seq<Entry>>)
    requires forall ln :: ln in labels ==> Free(ln, NUL)
    ensures r.None? <==> SomeRefuses(bs, labels)
    ensures r.Some? ==> Gathered(bs, |bs|, labels, id, r.value)
  {
    var entries: seq<Entry> := [];
    for n := 0 to |bs|
      invariant Gathered(bs, n, labels, id, entries)
    {
      var more := WriteEntries(bs[n], labels, id);
      if more.None? {
        OneRefuses(bs, n, labels);
        return None;
      }
      GatheredOneMore(bs, n, labels, id, entries, more.value);
      entries := entries + more.value;
    }
    AllTakenMeans(bs, labels);
    r := Some(entries);
  }

  /** Entries collected bucket by bucket go to different places exactly when the buckets are clear. */
  lemma CollectedPlaces(bs: seq<Bucket>, b: Bucket, labels: Metric, id: Bytes, entries: seq<Entry>, more: seq<Entry>)
    requires RowsOf(bs, labels, id, entries)
    requires forall e :: e in more <==> e in WriteRows(b, labels, id)
    requires NoClash(more) && (NoClash(entries) <==> BucketsClear(bs, labels, id))
    ensures NoClash(entries + more) <==> BucketsClear(bs + [b], labels, id)
  {
    NoClashAppend(entries, more);
    ClearAppend(bs, b, labels, id);
    if Clash(entries, more) {
      ClashIsOfBuckets(bs, b, labels, id, entries, more);
    }
    if m :| 0 <= m < |bs| && RowsClash(bs[m], b, labels, id) {
      ClashIsOfEntries(bs, b, labels, id, entries, more, m);
    }
  }

  lemma ClashIsOfBuckets(bs: seq<Bucket>, b: Bucket, labels: Metric, id: Bytes, entries: seq<Entry>, more: seq<Entry>)
    requires RowsOf(bs, labels, id, entries) && (forall e :: e in more <==> e in WriteRows(b, labels, id)) && Clash(entries, more)
    ensures exists m :: 0 <= m < |bs| && RowsClash(bs[m], b, labels, id)
  {
    var i, j :| 0 <= i < |entries| && 0 <= j < |more| && SamePlace(entries[i], more[j]);
    var e, f := entries[i], more[j];
    assert e in entries && f in more;
    var w :| w in bs && e in WriteRows(w, labels, id);
    var m :| 0 <= m < |bs| && bs[m] == w;
    assert RowsClash(bs[m], b, labels, id);
  }

  lemma ClashIsOfEntries(bs: seq<Bucket>, b: Bucket, labels: Metric, id: Bytes, entries: seq<Entry>, more: seq<Entry>, m: nat)
    requires RowsOf(bs, labels, id, entries) && (forall e :: e in more <==> e in WriteRows(b, labels, id))
    requires m < |bs| && RowsClash(bs[m], b, labels, id)
    ensures Clash(entries, more)
  {
    var e, f :| e in WriteRows(bs[m], labels, id) && f in WriteRows(b, labels, id) && SamePlace(e, f);
    assert bs[m] in bs;
    assert e in entries && f in more;
    var i :| 0 <= i < |entries| && entries[i] == e;
    var j :| 0 <= j < |more| && more[j] == f;
    assert SamePlace(entries[i], more[j]);
  }

  /** The rows of a chunk go to different places. */
  ghost predicate Clear(env: Env, c: Chunk)
    requires env.Valid()
  {
    GoodChunk(c) && BucketsClear(BucketsOfChunk(env, c), c.metric, Key(c.ref))
  }

  /** A row of the one chunk goes to the place of a row of the other. */
  ghost predicate Meets(env: Env, c: Chunk, d: Chunk)
    requires env.Valid()
  {
    GoodChunk(c) && GoodChunk(d) && exists e, f :: Indexes(env, c, e) && Indexes(env, d, f) && SamePlace(e, f)
  }

  // -------------------------------------------------- rows of different chunks

  /** The components of a row's range value. */
  function Parts(b: Bucket, ln: Option<Bytes>, value: Bytes, id: Bytes): seq<Bytes> {
    var time, encoded := EncodeTime(b.through), Base64.Encode(value);
    match ln
    case None => if b.version == V4 then [[], [], id, VERSION_2] else [time, [], id, VERSION_3]
    case Some(l) =>
      match b.version
      case V1 | V2 => [l, value, id]
      case V3 => [l, encoded, id, VERSION_1]
      case V4 => [[], encoded, id, VERSION_1]
      case V5 => [time, encoded, id, VERSION_4]
      case V6 => [time, [], id, VERSION_5]
  }

  lemma RowParts(b: Bucket, labels: Metric, id: Bytes, e: Entry) returns (ln: Option<Bytes>, value: Bytes)
    requires e in WriteRows(b, labels, id) && !WriteRefused(b, labels) && Free(id, NUL)
    requires forall ln :: ln in labels ==> Free(ln, NUL)
    ensures IsRow(b, labels, id, ln, e) && (ln.None? ==> IsNew(b.version))
    ensures Components(e.rangeValue) == Parts(b, ln, value, id)
    ensures |Components(e.rangeValue)| >= 3 && Components(e.rangeValue)[2] == id
  {
    ln := RowKind(b, labels, id, e);
    value := if ln.Some? then labels[ln.value] else [];
    PartsAreFree(b, ln, value, id);
    ComponentsOfRangeKey(Parts(b, ln, value, id));
  }

  lemma PartsAreFree(b: Bucket, ln: Option<Bytes>, value: Bytes, id: Bytes)
    requires Free(id, NUL) && (ln.Some? ==> Free(ln.value, NUL)) && (b.version in {V1, V2} ==> Free(value, NUL))
    ensures AllFree(Parts(b, ln, value, id), NUL)
  {
    Base64.EncodeIsNulFree(value);
    EncodeTimeDigits(b.through);
  }

  /** So rows of different chunks never go to one place. */
  lemma MeetsOnlyItself(env: Env, c: Chunk, d: Chunk, e: Entry, f: Entry)
    requires env.Valid() && GoodChunk(c) && GoodChunk(d) && !Unwritable(env, c) && !Unwritable(env, d)
    requires Indexes(env, c, e) && Indexes(env, d, f) && SamePlace(e, f)
    ensures c.ref == d.ref
  {
    var b :| b in BucketsOfChunk(env, c) && e in WriteRows(b, c.metric, Key(c.ref));
    var w :| w in BucketsOfChunk(env, d) && f in WriteRows(w, d.metric, Key(d.ref));
    KeyNulFree(c.ref);
    KeyNulFree(d.ref);
    var l1, v1 := RowParts(b, c.metric, Key(c.ref), e);
    var l2, v2 := RowParts(w, d.metric, Key(d.ref), f);
    KeyInjective(c.ref, d.ref);
  }

  // -------------------------------------------------- rows of one chunk

  /** Each version has one reign at most, as in every schema that newCompositeSchema puts together. */
  ghost predicate VersionsDiffer(schemas: seq<SchemaEntry>) {
    forall i, j :: 0 <= i < j < |schemas| ==> schemas[i].version != schemas[j].version
  }

  lemma CompositeVersionsDiffer(v2: Option<int>, v3: Option<int>, v4: Option<int>, v5: Option<int>, v6: Option<int>)
    requires NewComposite(v2, v3, v4, v5, v6).Some?
    ensures VersionsDiffer(NewComposite(v2, v3, v4, v5, v6).value)
  {
    var schemas := Composite.AllVersions(Composite.Dates(v2, v3, v4, v5, v6));
    assert forall i, j :: 0 <= i < j < |schemas| ==> Composite.Rank(schemas[i].version) < Composite.Rank(schemas[j].version);
  }

  function VersionsIn(schemas: seq<SchemaEntry>, i: nat, j: nat): set<Version>
    requires i <= j <= |schemas|
  {
    set k | i <= k < j :: schemas[k].version
  }

  /** So no two segments have the same version. */
  lemma {:induction false} SegmentVersions(schemas: seq<SchemaEntry>, i: nat, j: nat, start: int, through: int)
    requires VersionsDiffer(schemas) && i <= j <= |schemas|
    ensures var segs := SegmentsFrom(schemas, i, j, start, through);
            OneVersionEach(segs) && forall k :: 0 <= k < |segs| ==> segs[k].version in VersionsIn(schemas, i, j)
    decreases j - i
  {
    if i < j {
      var next := NextStart(schemas, i);
      var start' := if next == schemas[i].start then start else next;
      SegmentVersions(schemas, i + 1, j, start', through);
      var later := SegmentsFrom(schemas, i + 1, j, start', through);
      assert VersionsIn(schemas, i + 1, j) <= VersionsIn(schemas, i, j);
      assert schemas[i].version in VersionsIn(schemas, i, j) && schemas[i].version !in VersionsIn(schemas, i + 1, j);
      if next != schemas[i].start {
        FirstOfItsVersion(Segment(start, Schema.Min(through, next - 1), schemas[i].version), later);
      }
    }
  }

  lemma FirstOfItsVersion(seg: Segment, later: seq<Segment>)
    requires OneVersionEach(later) && forall k :: 0 <= k < |later| ==> later[k].version != seg.version
    ensures OneVersionEach([seg] + later)
  {
  }

  ghost predicate OneVersionEach(segs: seq<Segment>) {
    forall m, n :: 0 <= m < n < |segs| ==> segs[m].version != segs[n].version
  }

  /** Range values of different versions differ, but for those of labels in v3 and v4, and those of
      metrics in v5 and v6 with equal offsets. */
  lemma PartsDiffer(b: Bucket, l1: Option<Bytes>, v1: Bytes, w: Bucket, l2: Option<Bytes>, v2: Bytes, id: Bytes)
    requires b.version != w.version && V1 !in {b.version, w.version}
    requires (l1.None? ==> IsNew(b.version)) && (l2.None? ==> IsNew(w.version))
    requires Parts(b, l1, v1, id) == Parts(w, l2, v2, id)
    ensures (l1.Some? && l2.Some? && {b.version, w.version} == {V3, V4}) || b.through == w.through
  {
    var p, q := Parts(b, l1, v1, id), Parts(w, l2, v2, id);
    assert |p| == |q| && p[|p| - 1] == q[|q| - 1];
    if b.through != w.through {
      TimesDiffer(b.through, w.through);
      assert p[0] == q[0];
    }
  }

  lemma TimesDiffer(s: Uint32, t: Uint32)
    requires s != t
    ensures EncodeTime(s) != EncodeTime(t)
  {
    TimeRoundTrip(s);
    TimeRoundTrip(t);
  }

  /** Buckets of one day and different versions have no rows for one place. */
  lemma VersionsKeepApart(user: Bytes, day: Bytes, name: Bytes, b: Bucket, w: Bucket, labels: Metric, id: Bytes)
    requires b.version != w.version && V1 !in {b.version, w.version} && b.through != w.through
    requires Free(user, COLON) && Free(day, COLON) && Free(id, NUL) && forall ln :: ln in labels ==> Free(ln, NUL)
    requires b.hash == HashKey(user, day, name) && w.hash == HashKey(user, day, name)
    requires !WriteRefused(b, labels) && !WriteRefused(w, labels)
    ensures !RowsClash(b, w, labels, id)
  {
    if e, f :| e in WriteRows(b, labels, id) && f in WriteRows(w, labels, id) && SamePlace(e, f) {
      var l1, v1 := RowParts(b, labels, id, e);
      var l2, v2 := RowParts(w, labels, id, f);
      PartsDiffer(b, l1, v1, w, l2, v2, id);
      RowHash(user, day, name, b, labels, id, l1, e);
      RowHash(user, day, name, w, labels, id, l2, f);
      SameUserAndBucket(user, day, RowName(b.version, name, l1), user, day, RowName(w.version, name, l2));
      assert false;
    }
  }

  /** Buckets with different names have no rows for one place. */
  lemma NamesKeepApart(user: Bytes, name: Bytes, x: Bytes, y: Bytes, b: Bucket, w: Bucket, labels: Metric, id: Bytes)
    requires Free(user, COLON) && Free(x, COLON) && Free(y, COLON) && x != y
    requires b.hash == HashKey(user, x, name) && w.hash == HashKey(user, y, name)
    ensures !RowsClash(b, w, labels, id)
  {
    if e, f :| e in WriteRows(b, labels, id) && f in WriteRows(w, labels, id) && SamePlace(e, f) {
      var l1 := RowKind(b, labels, id, e);
      var l2 := RowKind(w, labels, id, f);
      RowHash(user, x, name, b, labels, id, l1, e);
      RowHash(user, y, name, w, labels, id, l2, f);
      SameUserAndBucket(user, x, RowName(b.version, name, l1), user, y, RowName(w.version, name, l2));
      assert false;
    }
  }

  lemma BucketsKeepApart(cfg: Config, user: Bytes, name: Bytes, a: Segment, i: int, b: Segment, j: int, labels: Metric, id: Bytes)
    requires ValidConfig(cfg) && Free(user, COLON) && BucketName(a.version, i) != BucketName(b.version, j)
    ensures !RowsClash(BucketAt(cfg, user, name, a, i), BucketAt(cfg, user, name, b, j), labels, id)
  {
    BucketNameFree(a.version, i);
    BucketNameFree(b.version, j);
    NamesKeepApart(user, name, BucketName(a.version, i), BucketName(b.version, j),
                   BucketAt(cfg, user, name, a, i), BucketAt(cfg, user, name, b, j), labels, id);
  }

  lemma SegmentIsClear(cfg: Config, user: Bytes, name: Bytes, seg: Segment, labels: Metric, id: Bytes)
    requires ValidConfig(cfg) && Free(user, COLON)
    ensures BucketsClear(BucketsOf(cfg, user, name, seg), labels, id)
  {
    var bs, lo := BucketsOf(cfg, user, name, seg), BucketIndex(seg.version, seg.from);
    forall m, n | 0 <= m < n < |bs| ensures !RowsClash(bs[m], bs[n], labels, id) {
      if BucketName(seg.version, lo + m) == BucketName(seg.version, lo + n) {
        BucketNameInjective(seg.version, lo + m, seg.version, lo + n);
      }
      BucketsKeepApart(cfg, user, name, seg, lo + m, seg, lo + n, labels, id);
    }
  }

  lemma {:induction false} SegmentsAreClear(cfg: Config, schemas: seq<SchemaEntry>, user: Bytes, name: Bytes, segs: seq<Segment>,
                                            lo: int, hi: int, labels: Metric, id: Bytes)
    requires ValidConfig(cfg) && Free(user, COLON) && Free(id, NUL) && forall ln :: ln in labels ==> Free(ln, NUL)
    requires AdjacentSorted(schemas) && schemas != [] && schemas[0].start <= lo && 0 <= lo
    requires Partitions(schemas, lo, hi, segs) && OneVersionEach(segs)
    requires forall b :: b in AllBuckets(cfg, user, name, segs) ==> !WriteRefused(b, labels)
    ensures BucketsClear(AllBuckets(cfg, user, name, segs), labels, id)
    decreases |segs|
  {
    if segs != [] {
      var first, rest := segs[0], segs[1..];
      assert forall k :: 0 <= k < |rest| ==> rest[k] == segs[k + 1];
      var a, b := BucketsOf(cfg, user, name, first), AllBuckets(cfg, user, name, rest);
      assert AllBuckets(cfg, user, name, segs) == a + b;
      SegmentsAreClear(cfg, schemas, user, name, rest, first.through + 1, hi, labels, id);
      PartitionBounds(schemas, first.through + 1, hi, rest);
      SegmentIsClear(cfg, user, name, first, labels, id);
      forall m, n | 0 <= m < |a| && 0 <= n < |b| ensures !RowsClash(a[m], b[n], labels, id) {
        LaterIsClear(cfg, user, name, first, m, rest, b[n], labels, id);
      }
      ClearConcat(a, b, labels, id);
    }
  }

  lemma LaterIsClear(cfg: Config, user: Bytes, name: Bytes, first: Segment, m: nat, rest: seq<Segment>, b: Bucket,
                     labels: Metric, id: Bytes)
    requires ValidConfig(cfg) && Free(user, COLON) && Free(id, NUL) && forall ln :: ln in labels ==> Free(ln, NUL)
    requires 0 <= first.from <= first.through
    requires forall s :: s in rest ==> first.through < s.from <= s.through && s.version != first.version
    requires m < |BucketsOf(cfg, user, name, first)| && b in AllBuckets(cfg, user, name, rest)
    requires !WriteRefused(BucketsOf(cfg, user, name, first)[m], labels) && !WriteRefused(b, labels)
    ensures !RowsClash(BucketsOf(cfg, user, name, first)[m], b, labels, id)
  {
    var seg, j := AllBucketsMember(cfg, user, name, rest, b);
    var i := BucketIndex(first.version, first.from) + m;
    if BucketName(first.version, i) == BucketName(seg.version, j) {
      BucketNameInjective(first.version, i, seg.version, j);
      BucketNameFree(first.version, i);
      OffsetsDiffer(cfg, user, name, first, seg, i);
      VersionsKeepApart(user, BucketName(first.version, i), name, BucketAt(cfg, user, name, first, i), b, labels, id);
    } else {
      BucketsKeepApart(cfg, user, name, first, i, seg, j, labels, id);
    }
  }

  /** Two segments that share a day end it at different offsets. */
  lemma OffsetsDiffer(cfg: Config, user: Bytes, name: Bytes, a: Segment, b: Segment, i: int)
    requires ValidConfig(cfg) && V1 !in {a.version, b.version} && 0 <= a.from <= a.through < b.from <= b.through
    requires BucketIndex(a.version, a.from) <= i <= BucketIndex(a.version, a.through)
    requires BucketIndex(b.version, b.from) <= i <= BucketIndex(b.version, b.through)
    ensures BucketAt(cfg, user, name, a, i).through != BucketAt(cfg, user, name, b, i).through
  {
    DailyOffsets(cfg, user, name, a, i);
    DailyOffsets(cfg, user, name, b, i);
    InstantInBucket(a.version, a.through);
    InstantInBucket(b.version, b.from);
  }

  lemma ClearConcat(a: seq<Bucket>, b: seq<Bucket>, labels: Metric, id: Bytes)
    requires BucketsClear(a, labels, id) && BucketsClear(b, labels, id)
    requires forall m, n :: 0 <= m < |a| && 0 <= n < |b| ==> !RowsClash(a[m], b[n], labels, id)
    ensures BucketsClear(a + b, labels, id)
  {
    var s := a + b;
    forall m, n | 0 <= m < n < |s| ensures !RowsClash(s[m], s[n], labels, id) {
      if n < |a| {
        assert !RowsClash(a[m], a[n], labels, id);
      } else if m < |a| {
        assert !RowsClash(a[m], b[n - |a|], labels, id);
      } else {
        assert !RowsClash(b[m - |a|], b[n - |a|], labels, id);
      }
    }
  }

  /** The rows of a chunk never go to one place. */
  lemma RowsAreClear(env: Env, c: Chunk)
    requires env.Valid() && GoodChunk(c) && !Unwritable(env, c) && VersionsDiffer(env.schemas)
    ensures Clear(env, c)
  {
    var from, through, name := c.ref.from, c.ref.through, c.metric[METRIC_NAME];
    var segs, i, j := Segments(env.schemas, from, through), Started(env.schemas, from), Started(env.schemas, through);
    assert i > 0;
    SegmentVersions(env.schemas, i - 1, j, from, through);
    SegmentsPartition(env.schemas, from, through);
    KeyNulFree(c.ref);
    assert AllBuckets(env.cfg, c.ref.user, name, segs) == BucketsOfChunk(env, c);
    SegmentsAreClear(env.cfg, env.schemas, c.ref.user, name, segs, from, Min(through, LATEST - 1), c.metric, Key(c.ref));
  }

  // -------------------------------------------------- when chunks can be put

  /** The chunk has a name, labels that its schemas take and rows in different places, and the
      tables refuse none of them. */
  ghost predicate Placeable(env: Env, tables: Tables, c: Chunk)
    requires env.Valid()
  {
    GoodChunk(c) && !Unwritable(env, c) && Clear(env, c) && forall e :: Indexes(env, c, e) ==> !Refused(tables, e)
  }

  /** When chunks can be put: each can be placed, and no two have rows for one place. */
  ghost predicate Puttable(env: Env, tables: Tables, chunks: seq<Chunk>)
    requires env.Valid()
  {
    && (forall k :: 0 <= k < |chunks| ==> Placeable(env, tables, chunks[k]))
    && (forall j, k :: 0 <= j < k < |chunks| ==> !Meets(env, chunks[j], chunks[k]))
  }

  /** The chunk has a name, labels that its schemas take, and tables for all its rows. */
  ghost predicate Provided(env: Env, tables: Tables, c: Chunk)
    requires env.Valid()
  {
    GoodChunk(c) && !Unwritable(env, c) && forall e :: Indexes(env, c, e) ==> e.table in tables
  }

  /** Chunks that are new to the store can be put exactly when each is provided for. */
  lemma NewChunksArePuttable(env: Env, tables: Tables, full: set<Chunk>, tried: set<Chunk>, chunks: seq<Chunk>)
    requires env.Valid() && VersionsDiffer(env.schemas) && Consistent(env, tables, full, tried)
    requires forall j, k :: 0 <= j < k < |chunks| ==> chunks[j].ref != chunks[k].ref
    requires forall c, k :: c in tried && 0 <= k < |chunks| ==> c.ref != chunks[k].ref
    ensures Puttable(env, tables, chunks) <==> forall k :: 0 <= k < |chunks| ==> Provided(env, tables, chunks[k])
  {
    forall k | 0 <= k < |chunks| ensures Placeable(env, tables, chunks[k]) <==> Provided(env, tables, chunks[k]) {
      NewChunkIsPlaceable(env, tables, full, tried, chunks[k]);
    }
    forall j, k | 0 <= j < k < |chunks| && Provided(env, tables, chunks[j]) && Provided(env, tables, chunks[k])
      ensures !Meets(env, chunks[j], chunks[k])
    {
      NeverMeet(env, chunks[j], chunks[k]);
    }
  }

  lemma NeverMeet(env: Env, c: Chunk, d: Chunk)
    requires env.Valid() && GoodChunk(c) && GoodChunk(d) && !Unwritable(env, c) && !Unwritable(env, d) && c.ref != d.ref
    ensures !Meets(env, c, d)
  {
    if e, f :| Indexes(env, c, e) && Indexes(env, d, f) && SamePlace(e, f) {
      MeetsOnlyItself(env, c, d, e, f);
      assert false;
    }
  }

  lemma NewChunkIsPlaceable(env: Env, tables: Tables, full: set<Chunk>, tried: set<Chunk>, c: Chunk)
    requires env.Valid() && VersionsDiffer(env.schemas) && Consistent(env, tables, full, tried)
    requires forall d :: d in tried ==> d.ref != c.ref
    ensures Placeable(env, tables, c) <==> Provided(env, tables, c)
  {
    if Provided(env, tables, c) {
      RowsAreClear(env, c);
      forall e | Indexes(env, c, e) ensures !Refused(tables, e) {
        NewPlaceIsFree(env, tables, full, tried, c, e);
      }
    }
  }

  /** The place of a row of a new chunk is not taken. */
  lemma NewPlaceIsFree(env: Env, tables: Tables, full: set<Chunk>, tried: set<Chunk>, c: Chunk, e: Entry)
    requires env.Valid() && Consistent(env, tables, full, tried) && GoodChunk(c) && !Unwritable(env, c)
    requires (forall d :: d in tried ==> d.ref != c.ref) && Indexes(env, c, e) && e.table in tables
    ensures !Refused(tables, e)
  {
    OccupiedIff(tables, e);
    if v :| Holds(tables, e.(value := v)) {
      var f := e.(value := v);
      var d :| d in tried && !Unwritable(env, d) && Indexes(env, d, f);
      MeetsOnlyItself(env, c, d, e, f);
      assert false;
    }
  }
}
