/** What the index of a chunk store means: which stored rows speak for which chunks, and
    that a lookup finds exactly the chunks it should. */
module ChunkIndex {
  import opened ByteStrings
  import opened ExternalKeys
  import opened ByKey
  import opened RangeKeys
  import opened Storage
  import opened Schema
  import opened SchemaCoverage
  import opened Sightings
  import opened Matchers

  /** A chunk; its samples are opaque here. */
  datatype Chunk = Chunk(ref: Ref, metric: Metric, data: Bytes)

  /** The schemas a store runs with. */
  datatype Env = Env(cfg: Config, schemas: seq<SchemaEntry>)
  {
    ghost predicate Valid() {
      ValidConfig(cfg) && FromEpoch(schemas)
    }
  }

  /** Chunks as ingesters hand them over: non-negative times, a checksummed key, a user ID and
      labels without the bytes that delimit index keys; the metric name may be anything. */
  ghost predicate GoodChunk(c: Chunk) {
    && c.ref.checksum.Some? && 0 <= c.ref.from <= c.ref.through < LATEST
    && Free(c.ref.user, NUL) && Free(c.ref.user, COLON)
    && METRIC_NAME in c.metric && forall ln :: ln in c.metric ==> GoodLabel(c.metric[METRIC_NAME], ln)
  }

  function BucketsOfChunk(env: Env, c: Chunk): seq<Bucket>
    requires env.Valid() && GoodChunk(c)
  {
    Buckets(env.cfg, env.schemas, c.ref.user, c.metric[METRIC_NAME], c.ref.from, c.ref.through)
  }

  /** The chunk has `e` among the rows it should get. */
  ghost predicate Indexes(env: Env, c: Chunk, e: Entry)
    requires env.Valid() && GoodChunk(c)
  {
    exists b :: b in BucketsOfChunk(env, c) && e in WriteRows(b, c.metric, Key(c.ref))
  }

  /** Some bucket of the chunk refuses its labels. */
  ghost predicate Unwritable(env: Env, c: Chunk)
    requires env.Valid() && GoodChunk(c)
  {
    exists b :: b in BucketsOfChunk(env, c) && WriteRefused(b, c.metric)
  }

  /** The index holds rows of chunks that were tried and all rows of those that were put. */
  ghost predicate Consistent(env: Env, tables: Tables, full: set<Chunk>, tried: set<Chunk>)
    requires env.Valid()
  {
    && full <= tried
    && (forall c :: c in tried ==> GoodChunk(c))
    && (forall e :: Holds(tables, e) ==> exists c :: c in tried && !Unwritable(env, c) && Indexes(env, c, e))
    && (forall c :: c in full ==> !Unwritable(env, c))
    && (forall c, e :: c in full && Indexes(env, c, e) ==> Holds(tables, e))
  }

  // -------------------------------------------------- lookups

  /** What one row item tells: a chunk and a label value. */
  datatype Hit = Hit(ref: ChunkRef, labelValue: Bytes)

  /** One step of processResponse; None is an error. Metadata kept in the index by very old
      versions is not read here. */
  function ReadItem(user: Bytes, it: Item): Option<Hit> {
    match RangeKeys.Parse(it.rangeValue, it.value)
    case Row(id, lv, metadataInIndex) =>
      if metadataInIndex && it.value.Some? then None
      else (match ExternalKeys.Parse(user, id)
            case Parsed(ref) => Some(Hit(ref, lv))
            case _ => None)
    case Invalid => None
  }

  predicate Accepts(m: Option<Matcher>, lv: Bytes) {
    m.None? || m.value.Match(lv)
  }

  /** The item reads as a row of the chunk whose label value the matcher accepts. */
  ghost predicate IsHit(user: Bytes, it: Item, m: Option<Matcher>, ref: ChunkRef) {
    ReadItem(user, it).Some? && ReadItem(user, it).value.ref == ref && Accepts(m, ReadItem(user, it).value.labelValue)
  }

  /** A query of the user's row takes in an item for `ref` that the matcher accepts. */
  ghost predicate Found(tables: Tables, user: Bytes, q: Query, m: Option<Matcher>, ref: ChunkRef) {
    exists it :: it in RowOf(tables, q.table, q.hash) && q.Scans(it.rangeValue) && IsHit(user, it, m, ref)
  }

  /** A query of the user's rows comes back without an error. */
  ghost predicate Readable(tables: Tables, user: Bytes, q: Query) {
    q.table in tables
    && forall it :: it in RowOf(tables, q.table, q.hash) && q.Scans(it.rangeValue) ==> ReadItem(user, it).Some?
  }

  /** A read for a metric of a user over an interval. */
  datatype Ask = Ask(user: Bytes, name: Bytes, from: int, through: int)

  function BucketsOfAsk(env: Env, a: Ask): seq<Bucket>
    requires env.Valid() && a.from <= a.through
  {
    Buckets(env.cfg, env.schemas, a.user, a.name, a.from, a.through)
  }

  /** Every bucket of the read can serve the lookup. */
  ghost predicate CanRead(env: Env, a: Ask, l: Lookup)
    requires env.Valid() && a.from <= a.through
  {
    forall b :: b in BucketsOfAsk(env, a) ==> ReadQuery(b, l).Some?
  }

  /** Some query of the lookup finds the chunk. */
  ghost predicate LookedUp(env: Env, tables: Tables, a: Ask, l: Lookup, m: Option<Matcher>, ref: ChunkRef)
    requires env.Valid() && a.from <= a.through
  {
    exists b :: b in BucketsOfAsk(env, a) && ReadQuery(b, l).Some? && Found(tables, a.user, ReadQuery(b, l).value, m, ref)
  }

  ghost predicate CleanAsk(a: Ask, l: Lookup) {
    a.from <= a.through && Free(a.user, COLON) && (l.ByMetric? || GoodLabel(a.name, l.ln))
  }

  /** The lookup for a matcher: by value for equality, by label otherwise. */
  function LookupFor(m: Matcher): Lookup {
    if m.kind.Equal? then ByValue(m.name, m.value) else ByLabel(m.name)
  }

  /** Get's overlap test. */
  predicate Overlaps(ref: ChunkRef, from: int, through: int) {
    !(ref.through < from || through < ref.from)
  }

  predicate Between(t: int, first: int, last: int) {
    first <= t <= last
  }

  /** The chunk and the interval have an instant in common. */
  ghost predicate SharesInstant(ref: ChunkRef, from: int, through: int) {
    exists t :: Between(t, ref.from, ref.through) && Between(t, from, through)
  }

  lemma OverlapsIff(ref: ChunkRef, from: int, through: int)
    requires ref.from <= ref.through && from <= through
    ensures Overlaps(ref, from, through) <==> SharesInstant(ref, from, through)
  {
    var t := Max(ref.from, from);
    assert Overlaps(ref, from, through) ==> Between(t, ref.from, ref.through) && Between(t, from, through);
  }

  // -------------------------------------------------- what a lookup shows

  function NameOf(c: Chunk): Bytes
    requires METRIC_NAME in c.metric
  {
    c.metric[METRIC_NAME]
  }

  /** The chunk has a label besides its name. */
  ghost predicate HasOtherLabel(c: Chunk) {
    exists ln :: ln in c.metric && ln != METRIC_NAME
  }

  /** The name of the chunk's metric, a colon and one of its labels make the name. */
  ghost predicate Collides(c: Chunk, name: Bytes)
    requires METRIC_NAME in c.metric
  {
    exists ln :: ln in c.metric && ln != METRIC_NAME && NameOf(c) + [COLON] + ln == name
  }

  ghost predicate NewSeen(env: Env, c: Chunk, a: Ask)
    requires env.Valid()
  {
    NewRowsSeen(env.schemas, c.ref.from, c.ref.through, a.from, a.through)
  }

  /** A lookup by metric name shows the chunks of that metric that have another label or rows from
      v4 on that it sees; and it also shows chunks of another metric whose label rows from v4 on
      lie under that name. */
  ghost predicate NameShows(env: Env, c: Chunk, a: Ask)
    requires env.Valid() && GoodChunk(c)
  {
    || (NameOf(c) == a.name && HasOtherLabel(c))
    || ((NameOf(c) == a.name || Collides(c, a.name)) && NewSeen(env, c, a))
  }

  /** The chunk is of the metric and carries a label value that the matcher accepts. */
  ghost predicate Carries(c: Chunk, a: Ask, m: Matcher)
    requires METRIC_NAME in c.metric
  {
    NameOf(c) == a.name && m.name != METRIC_NAME && m.name in c.metric && m.Match(c.metric[m.name])
  }

  /** The chunk is of a metric named like the one asked for, a colon and the label, and a v2 or v3
      row of any of its labels is read as one of the label asked for. */
  ghost predicate Mistaken(env: Env, c: Chunk, a: Ask, m: Matcher)
    requires env.Valid() && METRIC_NAME in c.metric
  {
    && NameOf(c) == a.name + [COLON] + m.name
    && (exists ln :: ln in c.metric && ln != METRIC_NAME && m.Match(c.metric[ln]))
    && OldRowsSeen(env.schemas, c.ref.from, c.ref.through, a.from, a.through, m.kind.Equal?)
  }

  /** What the lookup of a matcher shows. */
  ghost predicate MatcherShows(env: Env, c: Chunk, a: Ask, m: Matcher)
    requires env.Valid() && METRIC_NAME in c.metric
  {
    Carries(c, a, m) || Mistaken(env, c, a, m)
  }

  // -------------------------------------------------- rows speak for their chunks

  /** What an item of a row is read as: the chunk and the label's value; with a slash in the user ID
      it cannot be read. */
  function RowReads(c: Chunk, ln: Option<Bytes>): Option<Hit>
    requires ln.Some? ==> ln.value in c.metric
  {
    if Free(c.ref.user, SLASH) then Some(Hit(c.ref, if ln.None? then [] else c.metric[ln.value])) else None
  }

  /** The row of a chunk in a write bucket, and the read bucket whose scan takes it in. */
  datatype Sighting = Sighting(chunk: Chunk, ln: Option<Bytes>, ws: Segment, wi: int, rs: Segment, ri: int)

  /** Bucket `i` of the segment is among those of an interval. */
  ghost predicate HasBucket(env: Env, from: int, through: int, seg: Segment, i: int)
    requires env.Valid() && from <= through
  {
    && seg in Segments(env.schemas, from, through)
    && BucketIndex(seg.version, seg.from) <= i <= BucketIndex(seg.version, seg.through)
  }

  ghost predicate Sighted(env: Env, a: Ask, l: Lookup, b: Bucket, e: Entry, g: Sighting)
    requires env.Valid() && a.from <= a.through
  {
    && GoodChunk(g.chunk) && !Unwritable(env, g.chunk) && g.chunk.ref.user == a.user
    && HasBucket(env, g.chunk.ref.from, g.chunk.ref.through, g.ws, g.wi)
    && HasBucket(env, a.from, a.through, g.rs, g.ri) && b == BucketAt(env.cfg, a.user, a.name, g.rs, g.ri)
    && IsRow(BucketAt(env.cfg, a.user, NameOf(g.chunk), g.ws, g.wi), g.chunk.metric, Key(g.chunk.ref), g.ln, e)
    && (g.ln.None? ==> IsNew(g.ws.version))
    && g.wi == g.ri && (g.ws.version == V1 <==> g.rs.version == V1)
    && RowName(g.ws.version, NameOf(g.chunk), g.ln) == RowName(g.rs.version, a.name, LabelOf(l))
  }

  /** A stored item that a lookup takes in is a row of a chunk that was tried, of the same user and
      bucket and under the name asked for, and reads as that chunk and the value of the label the
      row is for, or no value for the chunk's own row. */
  lemma RowSpeaksForChunk(env: Env, tables: Tables, full: set<Chunk>, tried: set<Chunk>,
                          a: Ask, l: Lookup, b: Bucket, it: Item)
    returns (g: Sighting)
    requires env.Valid() && Consistent(env, tables, full, tried) && CleanAsk(a, l)
    requires b in BucketsOfAsk(env, a) && ReadQuery(b, l).Some?
    requires var q := ReadQuery(b, l).value; it in RowOf(tables, q.table, q.hash) && q.Scans(it.rangeValue)
    ensures var q := ReadQuery(b, l).value; g.chunk in tried && Sighted(env, a, l, b, Entry(q.table, q.hash, it.rangeValue, it.value), g)
    ensures ReadItem(a.user, it) == RowReads(g.chunk, g.ln)
  {
    var q := ReadQuery(b, l).value;
    var e := Entry(q.table, q.hash, it.rangeValue, it.value);
    assert Holds(tables, e);
    var c :| c in tried && !Unwritable(env, c) && Indexes(env, c, e);
    g := EntrySighted(env, c, e, a, l, b);
    NotRefused(env, c, g.ws, g.wi);
    RowIsRead(c, BucketAt(env.cfg, a.user, NameOf(c), g.ws, g.wi), g.ln, e);
  }

  lemma EntrySighted(env: Env, c: Chunk, e: Entry, a: Ask, l: Lookup, b: Bucket) returns (g: Sighting)
    requires env.Valid() && GoodChunk(c) && !Unwritable(env, c) && Indexes(env, c, e) && CleanAsk(a, l)
    requires b in BucketsOfAsk(env, a) && ReadQuery(b, l).Some? && Finds(ReadQuery(b, l).value, e)
    ensures g.chunk == c && Sighted(env, a, l, b, e, g)
  {
    var ws, wi, ln := RowOfChunk(env, c, e);
    var rs, ri := AllBucketsMember(env.cfg, a.user, a.name, Segments(env.schemas, a.from, a.through), b);
    RowsMeet(env.cfg, c.ref.user, NameOf(c), ws, wi, c.metric, Key(c.ref), ln, e, a.user, a.name, rs, ri, l);
    g := Sighting(c, ln, ws, wi, rs, ri);
  }

  /** The bucket and the label of a row that a chunk has. */
  lemma RowOfChunk(env: Env, c: Chunk, e: Entry) returns (ws: Segment, wi: int, ln: Option<Bytes>)
    requires env.Valid() && GoodChunk(c) && Indexes(env, c, e)
    ensures HasBucket(env, c.ref.from, c.ref.through, ws, wi)
    ensures IsRow(BucketAt(env.cfg, c.ref.user, NameOf(c), ws, wi), c.metric, Key(c.ref), ln, e)
    ensures ln.None? ==> IsNew(ws.version)
  {
    var w :| w in BucketsOfChunk(env, c) && e in WriteRows(w, c.metric, Key(c.ref));
    ln := RowKind(w, c.metric, Key(c.ref), e);
    ws, wi := AllBucketsMember(env.cfg, c.ref.user, NameOf(c), Segments(env.schemas, c.ref.from, c.ref.through), w);
  }

  /** A row of a chunk is read as the chunk and the value of the row's label. */
  lemma RowIsRead(c: Chunk, w: Bucket, ln: Option<Bytes>, e: Entry)
    requires GoodChunk(c) && IsRow(w, c.metric, Key(c.ref), ln, e) && (ln.None? ==> IsNew(w.version))
    requires !WriteRefused(w, c.metric)
    ensures ReadItem(c.ref.user, Item(e.rangeValue, e.value)) == RowReads(c, ln)
  {
    KeyRoundTrip(c.ref.user, c.ref);
    KeyNulFree(c.ref);
    if ln.None? {
      MetricRowParses(w, Key(c.ref), e);
    } else {
      LabelRowParses(w, ln.value, c.metric[ln.value], Key(c.ref));
    }
  }

  lemma NotRefused(env: Env, c: Chunk, ws: Segment, wi: int)
    requires env.Valid() && GoodChunk(c) && !Unwritable(env, c) && HasBucket(env, c.ref.from, c.ref.through, ws, wi)
    ensures !WriteRefused(BucketAt(env.cfg, c.ref.user, NameOf(c), ws, wi), c.metric)
  {
    var segs := Segments(env.schemas, c.ref.from, c.ref.through);
    var k :| 0 <= k < |segs| && segs[k] == ws;
    AllBucketsContains(env.cfg, c.ref.user, NameOf(c), segs, k, wi);
  }

  /** A lookup comes back without an error. */
  ghost predicate Served(env: Env, tables: Tables, a: Ask, l: Lookup)
    requires env.Valid() && a.from <= a.through
  {
    CanRead(env, a, l)
    && forall b :: b in BucketsOfAsk(env, a) && ReadQuery(b, l).Some? ==> Readable(tables, a.user, ReadQuery(b, l).value)
  }

  /** A query scans nothing. */
  ghost predicate ScansNothing(tables: Tables, q: Query) {
    forall it :: it in RowOf(tables, q.table, q.hash) ==> !q.Scans(it.rangeValue)
  }

  /** A lookup fails on what the store itself wrote exactly when it takes in any row of a user whose
      ID has a slash. */
  lemma LookupIsReadable(env: Env, tables: Tables, full: set<Chunk>, tried: set<Chunk>, a: Ask, l: Lookup, b: Bucket)
    requires env.Valid() && Consistent(env, tables, full, tried) && CleanAsk(a, l)
    requires b in BucketsOfAsk(env, a) && ReadQuery(b, l).Some?
    ensures var q := ReadQuery(b, l).value;
            Readable(tables, a.user, q) <==> q.table in tables && (Free(a.user, SLASH) || ScansNothing(tables, q))
  {
    var q := ReadQuery(b, l).value;
    forall it | it in RowOf(tables, q.table, q.hash) && q.Scans(it.rangeValue)
      ensures ReadItem(a.user, it).Some? <==> Free(a.user, SLASH)
    {
      var g := RowSpeaksForChunk(env, tables, full, tried, a, l, b, it);
    }
  }

  /** A lookup finds only chunks of the user that were tried. */
  lemma LookedUpIsTried(env: Env, tables: Tables, full: set<Chunk>, tried: set<Chunk>,
                        a: Ask, l: Lookup, m: Option<Matcher>, ref: ChunkRef)
    returns (c: Chunk)
    requires env.Valid() && Consistent(env, tables, full, tried) && CleanAsk(a, l) && LookedUp(env, tables, a, l, m, ref)
    ensures c in tried && c.ref == ref && c.ref.user == a.user && Free(a.user, SLASH)
  {
    var b :| b in BucketsOfAsk(env, a) && ReadQuery(b, l).Some? && Found(tables, a.user, ReadQuery(b, l).value, m, ref);
    var q := ReadQuery(b, l).value;
    var it :| it in RowOf(tables, q.table, q.hash) && q.Scans(it.rangeValue) && IsHit(a.user, it, m, ref);
    var g := RowSpeaksForChunk(env, tables, full, tried, a, l, b, it);
    c := g.chunk;
  }

  // -------------------------------------------------- lookups show nothing else

  /** A sighting in a lookup by metric name. */
  lemma NameSighting(env: Env, a: Ask, b: Bucket, e: Entry, g: Sighting)
    requires env.Valid() && a.from <= a.through && a.from < LATEST && Sighted(env, a, ByMetric, b, e, g)
    requires ReadQuery(b, ByMetric).value.Scans(e.rangeValue)
    ensures NameShows(env, g.chunk, a)
  {
    var c := g.chunk;
    var w := BucketAt(env.cfg, a.user, NameOf(c), g.ws, g.wi);
    if IsNew(g.ws.version) {
      assert e in WriteRows(w, c.metric, Key(c.ref));
      NewRowHead(w, c.metric, Key(c.ref), e);
      NewRowScanned(w, b, e.rangeValue);
      SeenByBuckets(env.schemas, c.ref.from, c.ref.through, a.from, a.through, g.ws, g.rs, g.wi,
                    env.cfg, a.user, NameOf(c), a.name);
    }
  }

  /** A sighting in the lookup of a matcher, of a row whose value the matcher accepts. */
  lemma MatcherSighting(env: Env, a: Ask, m: Matcher, b: Bucket, e: Entry, g: Sighting)
    requires env.Valid() && CleanAsk(a, LookupFor(m)) && a.from < LATEST && Sighted(env, a, LookupFor(m), b, e, g)
    requires ReadQuery(b, LookupFor(m)).Some? && ReadQuery(b, LookupFor(m)).value.Scans(e.rangeValue)
    requires g.ln.Some? && m.Match(g.chunk.metric[g.ln.value])
    ensures MatcherShows(env, g.chunk, a, m)
  {
    var c, ln, l := g.chunk, g.ln.value, LookupFor(m);
    var w := BucketAt(env.cfg, a.user, NameOf(c), g.ws, g.wi);
    SegmentInstant(env.schemas, c.ref.from, c.ref.through, g.ws, g.ws.from);
    if g.ws.version != V1 {
      DailyOffsets(env.cfg, a.user, NameOf(c), g.ws, g.wi);
    }
    LabelScan(w, NameOf(c), ln, c.metric[ln], Key(c.ref), b, a.name, l);
    if !(NameOf(c) == a.name && ln == m.name) {
      OldSeenByBuckets(env.schemas, c.ref.from, c.ref.through, a.from, a.through, g.ws, g.rs, g.wi, m.kind.Equal?);
    }
  }

  /** A lookup finds only chunks that were tried and that it shows; a matcher is taken to reject
      the empty value. */
  lemma LookupIsSound(env: Env, tables: Tables, full: set<Chunk>, tried: set<Chunk>,
                      a: Ask, l: Lookup, m: Option<Matcher>, ref: ChunkRef)
    returns (c: Chunk)
    requires env.Valid() && Consistent(env, tables, full, tried) && CleanAsk(a, l) && a.from < LATEST
    requires if m.Some? then !m.value.IsFilter() && l == LookupFor(m.value) else l == ByMetric
    requires LookedUp(env, tables, a, l, m, ref)
    ensures c in tried && c.ref == ref && c.ref.user == a.user
    ensures if m.Some? then MatcherShows(env, c, a, m.value) else NameShows(env, c, a)
  {
    var b :| b in BucketsOfAsk(env, a) && ReadQuery(b, l).Some? && Found(tables, a.user, ReadQuery(b, l).value, m, ref);
    var q := ReadQuery(b, l).value;
    var it :| it in RowOf(tables, q.table, q.hash) && q.Scans(it.rangeValue) && IsHit(a.user, it, m, ref);
    var g := RowSpeaksForChunk(env, tables, full, tried, a, l, b, it);
    c := g.chunk;
    if m.Some? {
      MatcherSighting(env, a, m.value, b, Entry(q.table, q.hash, it.rangeValue, it.value), g);
    } else {
      NameSighting(env, a, b, Entry(q.table, q.hash, it.rangeValue, it.value), g);
    }
  }

  // -------------------------------------------------- lookups show everything they should

  /** An entry of a chunk, held by the store and found by a query of its user, is a hit. */
  lemma HeldEntryIsFound(env: Env, tables: Tables, full: set<Chunk>, tried: set<Chunk>, c: Chunk, e: Entry,
                         q: Query, m: Option<Matcher>, lv: Bytes, meta: bool)
    requires env.Valid() && Consistent(env, tables, full, tried) && c in full
    requires Indexes(env, c, e) && Finds(q, e)
    requires RangeKeys.Parse(e.rangeValue, e.value) == Row(Key(c.ref), lv, meta) && (meta ==> e.value.None?)
    requires Accepts(m, lv) && (Free(c.ref.user, SLASH) || Readable(tables, c.ref.user, q))
    ensures Found(tables, c.ref.user, q, m, c.ref)
  {
    assert Holds(tables, e);
    var it := Item(e.rangeValue, e.value);
    assert it in RowOf(tables, q.table, q.hash) && q.Scans(it.rangeValue);
    KeyRead(c.ref, it, lv, meta);
    assert IsHit(c.ref.user, it, m, c.ref);
  }

  /** An item with the key of a chunk reads as the chunk exactly when its user ID has no slash. */
  lemma KeyRead(ref: Ref, it: Item, lv: Bytes, meta: bool)
    requires ref.checksum.Some?
    requires RangeKeys.Parse(it.rangeValue, it.value) == Row(Key(ref), lv, meta) && (meta ==> it.value.None?)
    ensures ReadItem(ref.user, it) == if Free(ref.user, SLASH) then Some(Hit(ref, lv)) else None
  {
    KeyRoundTrip(ref.user, ref);
  }

  /** The row of a label in a bucket of the chunk, and what it reads as. */
  lemma LabelRowOfChunk(env: Env, c: Chunk, w: Bucket, ln: Bytes) returns (e: Entry, meta: bool)
    requires env.Valid() && GoodChunk(c) && w in BucketsOfChunk(env, c) && !Unwritable(env, c)
    requires ln in c.metric && ln != METRIC_NAME
    ensures e == LabelEntry(w, ln, c.metric[ln], Key(c.ref)) && Indexes(env, c, e)
    ensures RangeKeys.Parse(e.rangeValue, e.value) == Row(Key(c.ref), c.metric[ln], meta) && (meta ==> e.value.None?)
    ensures meta == (w.version in {V1, V2})
  {
    e, meta := LabelEntry(w, ln, c.metric[ln], Key(c.ref)), w.version in {V1, V2};
    KeyNulFree(c.ref);
    assert !WriteRefused(w, c.metric);
    LabelRowParses(w, ln, c.metric[ln], Key(c.ref));
    assert e in WriteRows(w, c.metric, Key(c.ref));
  }

  /** The row every chunk has in a bucket from v4 on, and what it reads as. */
  lemma MetricRowOfChunk(env: Env, c: Chunk, w: Bucket) returns (e: Entry)
    requires env.Valid() && GoodChunk(c) && w in BucketsOfChunk(env, c) && w.version in {V4, V5, V6}
    ensures e in MetricEntries(w, Key(c.ref)) && Indexes(env, c, e)
    ensures RangeKeys.Parse(e.rangeValue, e.value) == Row(Key(c.ref), [], false)
  {
    e := if w.version == V4 then Entry(w.table, w.hash, RangeKey([[], [], Key(c.ref), VERSION_2]), None)
         else Entry(w.table, w.hash, RangeKey([EncodeTime(w.through), [], Key(c.ref), VERSION_3]), None);
    KeyNulFree(c.ref);
    MetricRowParses(w, Key(c.ref), e);
    assert e in WriteRows(w, c.metric, Key(c.ref));
  }

  /** A bucket of the chunk and a bucket of the read that meet. */
  lemma ChunkMeetsAsk(env: Env, c: Chunk, a: Ask) returns (w: Bucket, r: Bucket)
    requires env.Valid() && GoodChunk(c) && c.ref.user == a.user && NameOf(c) == a.name
    requires a.from <= a.through && Overlaps(c.ref, a.from, a.through)
    ensures w in BucketsOfChunk(env, c) && r in BucketsOfAsk(env, a) && Meet(w, r)
  {
    var t := Max(a.from, c.ref.from);
    w, r := SharedInstant(env.cfg, env.schemas, a.user, a.name, c.ref.from, c.ref.through, a.from, a.through, t);
  }

  /** Two instants of a day give buckets of the chunk and of the read on that day. */
  lemma InstantsMeet(env: Env, c: Chunk, a: Ask, s: int, u: int) returns (w: Bucket, r: Bucket, day: Bytes)
    requires env.Valid() && GoodChunk(c) && c.ref.user == a.user && a.from <= a.through
    requires Inside(s, c.ref.from, c.ref.through) && Inside(u, a.from, a.through) && Day(s) == Day(u)
    requires VersionAt(env.schemas, s) != V1 && VersionAt(env.schemas, u) != V1
    ensures w in BucketsOfChunk(env, c) && w.version == VersionAt(env.schemas, s)
    ensures r in BucketsOfAsk(env, a) && r.version == VersionAt(env.schemas, u)
    ensures w.table == r.table && w.hash == HashKey(a.user, day, NameOf(c)) && r.hash == HashKey(a.user, day, a.name)
    ensures r.from <= MS_IN_DAY && (u <= s ==> r.from <= w.through)
  {
    w, r, day := BucketsOfInstants(env.cfg, env.schemas, a.user, NameOf(c), a.name,
                                   c.ref.from, c.ref.through, a.from, a.through, s, u);
  }

  /** The lookup of a matcher, unless it fails, finds every put chunk that overlaps the query and that
      it shows. */
  lemma LabelLookupIsComplete(env: Env, tables: Tables, full: set<Chunk>, tried: set<Chunk>, a: Ask, m: Matcher, c: Chunk)
    requires env.Valid() && Consistent(env, tables, full, tried) && CleanAsk(a, LookupFor(m))
    requires c in full && c.ref.user == a.user && Overlaps(c.ref, a.from, a.through)
    requires MatcherShows(env, c, a, m) && CanRead(env, a, LookupFor(m))
    requires Free(a.user, SLASH) || Served(env, tables, a, LookupFor(m))
    ensures LookedUp(env, tables, a, LookupFor(m), Some(m), c.ref)
  {
    var l := LookupFor(m);
    if Carries(c, a, m) {
      var w, r := ChunkMeetsAsk(env, c, a);
      var e, meta := LabelRowOfChunk(env, c, w, m.name);
      LabelRowIsFound(w, r, m.name, c.metric[m.name], Key(c.ref), l);
      HeldEntryIsFound(env, tables, full, tried, c, e, ReadQuery(r, l).value, Some(m), c.metric[m.name], meta);
    } else {
      MistakenIsFound(env, tables, full, tried, a, m, c);
    }
  }

  lemma MistakenIsFound(env: Env, tables: Tables, full: set<Chunk>, tried: set<Chunk>, a: Ask, m: Matcher, c: Chunk)
    requires env.Valid() && Consistent(env, tables, full, tried) && CleanAsk(a, LookupFor(m))
    requires c in full && c.ref.user == a.user && Mistaken(env, c, a, m)
    requires Free(a.user, SLASH) || Served(env, tables, a, LookupFor(m))
    ensures LookedUp(env, tables, a, LookupFor(m), Some(m), c.ref)
  {
    var l := LookupFor(m);
    var ln :| ln in c.metric && ln != METRIC_NAME && m.Match(c.metric[ln]);
    var s, u :| Inside(s, c.ref.from, c.ref.through) && Inside(u, a.from, a.through) && SeesOld(env.schemas, s, u, m.kind.Equal?);
    var w, r, day := InstantsMeet(env, c, a, s, u);
    var e, meta := LabelRowOfChunk(env, c, w, ln);
    assert NameOf(c)[|a.name|] == COLON && !Free(NameOf(c), COLON);
    OldRowScanned(w, ln, c.metric[ln], Key(c.ref), r, l);
    AskHash(a.user, day, a.name, r, l);
    HeldEntryIsFound(env, tables, full, tried, c, e, ReadQuery(r, l).value, Some(m), c.metric[ln], meta);
  }

  /** A metric lookup, unless it fails, finds every put chunk that overlaps the query and that it shows. */
  lemma MetricLookupIsComplete(env: Env, tables: Tables, full: set<Chunk>, tried: set<Chunk>, a: Ask, c: Chunk)
    requires env.Valid() && Consistent(env, tables, full, tried) && CleanAsk(a, ByMetric)
    requires c in full && c.ref.user == a.user && Overlaps(c.ref, a.from, a.through) && NameShows(env, c, a)
    requires Free(a.user, SLASH) || Served(env, tables, a, ByMetric)
    ensures LookedUp(env, tables, a, ByMetric, None, c.ref)
  {
    if NameOf(c) == a.name && HasOtherLabel(c) {
      OwnRowIsFound(env, tables, full, tried, a, c);
    } else {
      NewRowIsFound(env, tables, full, tried, a, c);
    }
  }

  lemma OwnRowIsFound(env: Env, tables: Tables, full: set<Chunk>, tried: set<Chunk>, a: Ask, c: Chunk)
    requires env.Valid() && Consistent(env, tables, full, tried) && CleanAsk(a, ByMetric)
    requires c in full && c.ref.user == a.user && Overlaps(c.ref, a.from, a.through)
    requires NameOf(c) == a.name && HasOtherLabel(c) && (Free(a.user, SLASH) || Served(env, tables, a, ByMetric))
    ensures LookedUp(env, tables, a, ByMetric, None, c.ref)
  {
    var w, r := ChunkMeetsAsk(env, c, a);
    if IsNew(w.version) {
      var e := MetricRowOfChunk(env, c, w);
      MetricRowIsFound(w, r, Key(c.ref), e);
      HeldEntryIsFound(env, tables, full, tried, c, e, ReadQuery(r, ByMetric).value, None, [], false);
    } else {
      var ln :| ln in c.metric && ln != METRIC_NAME;
      var e, meta := LabelRowOfChunk(env, c, w, ln);
      OldRowIsFound(w, r, ln, c.metric[ln], Key(c.ref));
      HeldEntryIsFound(env, tables, full, tried, c, e, ReadQuery(r, ByMetric).value, None, c.metric[ln], meta);
    }
  }

  /** A row from v4 on that lies under the name asked for and is seen is found. */
  lemma NewRowIsFound(env: Env, tables: Tables, full: set<Chunk>, tried: set<Chunk>, a: Ask, c: Chunk)
    requires env.Valid() && Consistent(env, tables, full, tried) && a.from <= a.through
    requires c in full && c.ref.user == a.user && (NameOf(c) == a.name || Collides(c, a.name)) && NewSeen(env, c, a)
    requires Free(a.user, SLASH) || Served(env, tables, a, ByMetric)
    ensures LookedUp(env, tables, a, ByMetric, None, c.ref)
  {
    var e, lv, r := SeenRow(env, c, a);
    HeldEntryIsFound(env, tables, full, tried, c, e, ReadQuery(r, ByMetric).value, None, lv, false);
  }

  lemma SeenRow(env: Env, c: Chunk, a: Ask) returns (e: Entry, lv: Bytes, r: Bucket)
    requires env.Valid() && GoodChunk(c) && !Unwritable(env, c) && c.ref.user == a.user && a.from <= a.through
    requires (NameOf(c) == a.name || Collides(c, a.name)) && NewSeen(env, c, a)
    ensures r in BucketsOfAsk(env, a) && Indexes(env, c, e) && ReadQuery(r, ByMetric).Some? && Finds(ReadQuery(r, ByMetric).value, e)
    ensures RangeKeys.Parse(e.rangeValue, e.value) == Row(Key(c.ref), lv, false)
  {
    var s, u :| Inside(s, c.ref.from, c.ref.through) && Inside(u, a.from, a.through) && SeesNew(env.schemas, s, u);
    var w, day;
    w, r, day := InstantsMeet(env, c, a, s, u);
    var ln;
    e, lv, ln := RowUnderName(env, c, a.name, w);
    NewRowFinds(c, w, ln, e, a.user, day, a.name, r);
  }

  lemma NewRowFinds(c: Chunk, w: Bucket, ln: Option<Bytes>, e: Entry, user: Bytes, day: Bytes, name: Bytes, r: Bucket)
    requires METRIC_NAME in c.metric && IsNew(w.version) && ScansNew(w, r) && w.table == r.table
    requires w.hash == HashKey(user, day, NameOf(c)) && r.hash == HashKey(user, day, name)
    requires IsRow(w, c.metric, Key(c.ref), ln, e) && e in WriteRows(w, c.metric, Key(c.ref))
    requires RowName(w.version, NameOf(c), ln) == name
    ensures ReadQuery(r, ByMetric).Some? && Finds(ReadQuery(r, ByMetric).value, e)
  {
    RowHash(user, day, NameOf(c), w, c.metric, Key(c.ref), ln, e);
    NewRowHead(w, c.metric, Key(c.ref), e);
    NewRowScanned(w, r, e.rangeValue);
  }

  /** The chunk's own row, or the row of the label that makes up the name. */
  lemma RowUnderName(env: Env, c: Chunk, name: Bytes, w: Bucket) returns (e: Entry, lv: Bytes, ln: Option<Bytes>)
    requires env.Valid() && GoodChunk(c) && !Unwritable(env, c) && w in BucketsOfChunk(env, c) && IsNew(w.version)
    requires NameOf(c) == name || Collides(c, name)
    ensures IsRow(w, c.metric, Key(c.ref), ln, e) && e in WriteRows(w, c.metric, Key(c.ref)) && Indexes(env, c, e)
    ensures RowName(w.version, NameOf(c), ln) == name
    ensures RangeKeys.Parse(e.rangeValue, e.value) == Row(Key(c.ref), lv, false)
  {
    if NameOf(c) == name {
      e := MetricRowOfChunk(env, c, w);
      lv, ln := [], None;
      assert e in WriteRows(w, c.metric, Key(c.ref));
    } else {
      var x :| x in c.metric && x != METRIC_NAME && NameOf(c) + [COLON] + x == name;
      var meta;
      e, meta := LabelRowOfChunk(env, c, w, x);
      lv, ln := c.metric[x], Some(x);
      assert e in WriteRows(w, c.metric, Key(c.ref));
    }
  }

  /** Before v4 a metric lookup takes in every label row of the bucket. */
  lemma OldRowIsFound(w: Bucket, r: Bucket, ln: Bytes, value: Bytes, id: Bytes)
    requires Meet(w, r) && w.version in {V1, V2, V3}
    ensures Finds(ReadQuery(r, ByMetric).value, LabelEntry(w, ln, value, id))
  {
  }
}
