/** The chunk store: Put writes chunks and their index rows, Get looks chunks up through
    the index. Goroutines whose results are collected from a channel are loops that take
    the results in an arbitrary order. */
module ChunkStore {
  import opened ByteStrings
  import opened ExternalKeys
  import opened ByKey
  import opened SortedLists
  import opened Storage
  import opened Schema
  import opened SchemaCoverage
  import opened Sightings
  import opened Matchers
  import opened ChunkIndex
  import opened Placement

  // -------------------------------------------------- lookups

  /** Some item up to `n` is a hit for `ref`. */
  ghost predicate HitIn(user: Bytes, items: Row, n: nat, m: Option<Matcher>, ref: ChunkRef)
    requires n <= |items|
  {
    exists k :: 0 <= k < n && IsHit(user, items[k], m, ref)
  }

  /** processResponse: the chunks of a page of items whose label value the matcher accepts;
      None when an item cannot be read. */
  method ProcessResponse(user: Bytes, items: Row, m: Option<Matcher>) returns (r: Option<seq<Ref>>)
    ensures r.None? <==> exists k :: 0 <= k < |items| && ReadItem(user, items[k]).None?
    ensures r.Some? ==> forall ref :: ref in r.value <==> HitIn(user, items, |items|, m, ref)
  {
    var chunks: seq<Ref> := [];
    for n := 0 to |items|
      invariant forall k :: 0 <= k < n ==> ReadItem(user, items[k]).Some?
      invariant AreHits(user, items, n, m, chunks)
    {
      var ok, hit := ProcessItem(user, items[n], m);
      if !ok {
        return None;
      }
      HitInStep(user, items, n, m);
      chunks := chunks + hit;
    }
    r := Some(chunks);
  }

  /** The list has exactly the chunks of the first items. */
  ghost predicate AreHits(user: Bytes, items: Row, n: nat, m: Option<Matcher>, chunks: seq<Ref>)
    requires n <= |items|
  {
    forall ref :: ref in chunks <==> HitIn(user, items, n, m, ref)
  }

  lemma HitInStep(user: Bytes, items: Row, n: nat, m: Option<Matcher>)
    requires n < |items|
    ensures forall ref :: HitIn(user, items, n + 1, m, ref) <==> HitIn(user, items, n, m, ref) || IsHit(user, items[n], m, ref)
  {
  }

  /** The body of the loop of processResponse: the chunk of an item, if the matcher accepts it. */
  method ProcessItem(user: Bytes, it: Item, m: Option<Matcher>) returns (ok: bool, hit: seq<Ref>)
    ensures ok <==> ReadItem(user, it).Some?
    ensures ok ==> forall ref :: ref in hit <==> IsHit(user, it, m, ref)
  {
    var read := ReadItem(user, it);
    ok, hit := read.Some?, [];
    if ok && Accepts(m, read.value.labelValue) {
      hit := [read.value.ref];
    }
  }

  /** lookupEntry: one index query, its chunks sorted and without repeats. */
  method LookupEntry(tables: Tables, user: Bytes, q: Query, m: Option<Matcher>) returns (r: Option<seq<Ref>>)
    requires Storage.Valid(tables)
    ensures r.Some? <==> Readable(tables, user, q)
    ensures r.Some? ==> InOrder(r.value)
    ensures r.Some? ==> forall ref :: ref in r.value <==> Found(tables, user, q, m, ref)
  {
    var page := QueryPages(tables, q);
    if page.None? {
      return None;
    }
    PageOfRow(tables, user, q, page.value, m);
    var chunks := ProcessResponse(user, page.value, m);
    if chunks.None? {
      return None;
    }
    var unique := SortUnique(chunks.value);
    r := Some(unique);
  }

  /** A page says the same about chunks as the part of the row it was selected from. */
  lemma PageOfRow(tables: Tables, user: Bytes, q: Query, page: Row, m: Option<Matcher>)
    requires q.table in tables && page == Selected(RowOf(tables, q.table, q.hash), q)
    ensures Readable(tables, user, q) <==> !exists k :: 0 <= k < |page| && ReadItem(user, page[k]).None?
    ensures forall ref :: HitIn(user, page, |page|, m, ref) <==> Found(tables, user, q, m, ref)
  {
    SelectedMembers(RowOf(tables, q.table, q.hash), q);
    assert forall k :: 0 <= k < |page| ==> page[k] in page;
    forall ref ensures HitIn(user, page, |page|, m, ref) <==> Found(tables, user, q, m, ref) {
      if Found(tables, user, q, m, ref) {
        var it :| it in RowOf(tables, q.table, q.hash) && q.Scans(it.rangeValue) && IsHit(user, it, m, ref);
        assert it in page;
      }
    }
  }

  /** The list is what the query finds. */
  ghost predicate ListOf(tables: Tables, user: Bytes, q: Query, m: Option<Matcher>, list: seq<Ref>) {
    InOrder(list) && Readable(tables, user, q) && forall ref :: ref in list <==> Found(tables, user, q, m, ref)
  }

  /** One goroutine per query; None when one of them fails. */
  method LookupEach(tables: Tables, user: Bytes, qs: seq<Query>, m: Option<Matcher>) returns (r: Option<seq<seq<Ref>>>)
    requires Storage.Valid(tables)
    ensures r.Some? <==> forall k :: 0 <= k < |qs| ==> Readable(tables, user, qs[k])
    ensures r.Some? ==> |r.value| == |qs| && forall k :: 0 <= k < |qs| ==> ListOf(tables, user, qs[k], m, r.value[k])
  {
    var lists: seq<seq<Ref>> := [];
    for n := 0 to |qs|
      invariant |lists| == n && forall k :: 0 <= k < n ==> ListOf(tables, user, qs[k], m, lists[k])
    {
      var incoming := LookupEntry(tables, user, qs[n], m);
      if incoming.None? {
        return None;
      }
      lists := lists + [incoming.value];
    }
    r := Some(lists);
  }

  /** lookupEntries: all queries of a lookup, merged as they arrive. */
  method LookupEntries(tables: Tables, user: Bytes, qs: seq<Query>, m: Option<Matcher>) returns (r: Option<seq<Ref>>)
    requires Storage.Valid(tables)
    ensures r.Some? <==> forall k :: 0 <= k < |qs| ==> Readable(tables, user, qs[k])
    ensures r.Some? ==> InOrder(r.value)
    ensures r.Some? ==> forall ref :: ref in r.value <==> FoundBy(tables, user, qs, m, ref)
  {
    var lists := LookupEach(tables, user, qs, m);
    if lists.None? {
      return None;
    }
    var merged := MergeArrivals(lists.value);
    forall ref ensures InSome(lists.value, ref) <==> FoundBy(tables, user, qs, m, ref) {
      InSomeIsFoundBy(tables, user, qs, m, lists.value, ref);
    }
    r := Some(merged);
  }

  ghost predicate FoundBy(tables: Tables, user: Bytes, qs: seq<Query>, m: Option<Matcher>, ref: ChunkRef) {
    exists k :: 0 <= k < |qs| && Found(tables, user, qs[k], m, ref)
  }

  lemma InSomeIsFoundBy(tables: Tables, user: Bytes, qs: seq<Query>, m: Option<Matcher>, lists: seq<seq<Ref>>, ref: ChunkRef)
    requires |lists| == |qs| && forall k :: 0 <= k < |qs| ==> ListOf(tables, user, qs[k], m, lists[k])
    ensures InSome(lists, ref) <==> FoundBy(tables, user, qs, m, ref)
  {
    if InSome(lists, ref) {
      var l :| l in lists && ref in l;
      var k :| 0 <= k < |lists| && lists[k] == l;
      assert Found(tables, user, qs[k], m, ref);
    }
    if FoundBy(tables, user, qs, m, ref) {
      var k :| 0 <= k < |qs| && Found(tables, user, qs[k], m, ref);
      assert lists[k] in lists && ref in lists[k];
    }
  }

  /** The read queries of a lookup, one per bucket; None where a bucket refuses. */
  method ReadEntries(env: Env, a: Ask, l: Lookup) returns (r: Option<seq<Query>>)
    requires env.Valid() && a.from <= a.through
    ensures r.Some? <==> CanRead(env, a, l)
    ensures r.Some? ==> QueriesOf(BucketsOfAsk(env, a), l, r.value)
  {
    var bs := VisitBuckets(env.cfg, env.schemas, a.user, a.name, a.from, a.through);
    var qs: seq<Query> := [];
    for n := 0 to |bs|
      invariant |qs| == n && forall k :: 0 <= k < n ==> QueryFor(bs[k], l, qs[k])
    {
      var q := ReadQuery(bs[n], l);
      if q.None? {
        return None;
      }
      qs := qs + [q.value];
    }
    r := Some(qs);
  }

  /** One lookup: its read queries, and what they find. */
  method RunLookup(env: Env, tables: Tables, a: Ask, l: Lookup, m: Option<Matcher>) returns (r: Option<seq<Ref>>)
    requires env.Valid() && a.from <= a.through && Storage.Valid(tables)
    ensures r.Some? <==> Served(env, tables, a, l)
    ensures r.Some? ==> InOrder(r.value)
    ensures r.Some? ==> forall ref :: ref in r.value <==> LookedUp(env, tables, a, l, m, ref)
  {
    var qs := ReadEntries(env, a, l);
    if qs.None? {
      return None;
    }
    QueriesOfBuckets(env, tables, a, l, m, qs.value);
    r := LookupEntries(tables, a.user, qs.value, m);
  }

  /** The queries of a lookup, one for each bucket. */
  ghost predicate QueriesOf(bs: seq<Bucket>, l: Lookup, qs: seq<Query>) {
    |qs| == |bs| && forall k :: 0 <= k < |bs| ==> QueryFor(bs[k], l, qs[k])
  }

  predicate QueryFor(b: Bucket, l: Lookup, q: Query) {
    ReadQuery(b, l) == Some(q)
  }

  /** They say together what the lookup says. */
  lemma QueriesOfBuckets(env: Env, tables: Tables, a: Ask, l: Lookup, m: Option<Matcher>, qs: seq<Query>)
    requires env.Valid() && a.from <= a.through && CanRead(env, a, l) && QueriesOf(BucketsOfAsk(env, a), l, qs)
    ensures Served(env, tables, a, l) <==> forall k :: 0 <= k < |qs| ==> Readable(tables, a.user, qs[k])
    ensures forall ref :: LookedUp(env, tables, a, l, m, ref) <==> FoundBy(tables, a.user, qs, m, ref)
  {
    ServedByQueries(env, tables, a, l, qs);
    forall ref ensures LookedUp(env, tables, a, l, m, ref) <==> FoundBy(tables, a.user, qs, m, ref) {
      LookedUpByQueries(env, tables, a, l, m, qs, ref);
    }
  }

  lemma ServedByQueries(env: Env, tables: Tables, a: Ask, l: Lookup, qs: seq<Query>)
    requires env.Valid() && a.from <= a.through && CanRead(env, a, l) && QueriesOf(BucketsOfAsk(env, a), l, qs)
    ensures Served(env, tables, a, l) <==> forall k :: 0 <= k < |qs| ==> Readable(tables, a.user, qs[k])
  {
    var bs := BucketsOfAsk(env, a);
    if forall k :: 0 <= k < |qs| ==> Readable(tables, a.user, qs[k]) {
      forall b | b in bs ensures Readable(tables, a.user, ReadQuery(b, l).value) {
        var k := QueryOfBucket(bs, l, qs, b);
      }
    }
    if Served(env, tables, a, l) {
      forall k | 0 <= k < |qs| ensures Readable(tables, a.user, qs[k]) {
        assert bs[k] in bs;
      }
    }
  }

  lemma LookedUpByQueries(env: Env, tables: Tables, a: Ask, l: Lookup, m: Option<Matcher>, qs: seq<Query>, ref: ChunkRef)
    requires env.Valid() && a.from <= a.through && CanRead(env, a, l) && QueriesOf(BucketsOfAsk(env, a), l, qs)
    ensures LookedUp(env, tables, a, l, m, ref) <==> FoundBy(tables, a.user, qs, m, ref)
  {
    var bs := BucketsOfAsk(env, a);
    if LookedUp(env, tables, a, l, m, ref) {
      var b :| b in bs && ReadQuery(b, l).Some? && Found(tables, a.user, ReadQuery(b, l).value, m, ref);
      var k := QueryOfBucket(bs, l, qs, b);
    }
    if FoundBy(tables, a.user, qs, m, ref) {
      var k :| 0 <= k < |qs| && Found(tables, a.user, qs[k], m, ref);
      assert bs[k] in bs;
    }
  }

  lemma QueryOfBucket(bs: seq<Bucket>, l: Lookup, qs: seq<Query>, b: Bucket) returns (k: nat)
    requires QueriesOf(bs, l, qs) && b in bs
    ensures k < |qs| && ReadQuery(b, l) == Some(qs[k])
  {
    k :| 0 <= k < |bs| && bs[k] == b;
  }

  ghost predicate AllServed(env: Env, tables: Tables, a: Ask, rest: seq<Matcher>)
    requires env.Valid() && a.from <= a.through
  {
    if rest == [] then Served(env, tables, a, ByMetric)
    else forall k :: 0 <= k < |rest| ==> Served(env, tables, a, LookupFor(rest[k]))
  }

  ghost predicate AllLookedUp(env: Env, tables: Tables, a: Ask, rest: seq<Matcher>, ref: ChunkRef)
    requires env.Valid() && a.from <= a.through
  {
    if rest == [] then LookedUp(env, tables, a, ByMetric, None, ref)
    else forall k :: 0 <= k < |rest| ==> LookedUp(env, tables, a, LookupFor(rest[k]), Some(rest[k]), ref)
  }

  /** The list is what the matcher looks up. */
  ghost predicate MatchList(env: Env, tables: Tables, a: Ask, m: Matcher, list: seq<Ref>)
    requires env.Valid() && a.from <= a.through
  {
    && InOrder(list) && Served(env, tables, a, LookupFor(m))
    && forall ref :: ref in list <==> LookedUp(env, tables, a, LookupFor(m), Some(m), ref)
  }

  /** The lookup of one matcher. */
  method MatchOne(env: Env, tables: Tables, a: Ask, m: Matcher) returns (r: Option<seq<Ref>>)
    requires env.Valid() && a.from <= a.through && Storage.Valid(tables)
    ensures r.Some? <==> Served(env, tables, a, LookupFor(m))
    ensures r.Some? ==> MatchList(env, tables, a, m, r.value)
  {
    r := RunLookup(env, tables, a, LookupFor(m), Some(m));
  }

  /** One goroutine per matcher; None when one of them fails. */
  method MatchEach(env: Env, tables: Tables, a: Ask, rest: seq<Matcher>) returns (r: Option<seq<seq<Ref>>>)
    requires env.Valid() && a.from <= a.through && Storage.Valid(tables)
    ensures r.Some? <==> forall k :: 0 <= k < |rest| ==> Served(env, tables, a, LookupFor(rest[k]))
    ensures r.Some? ==> |r.value| == |rest|
                        && forall k :: 0 <= k < |rest| ==> MatchList(env, tables, a, rest[k], r.value[k])
  {
    var lists: seq<seq<Ref>> := [];
    for n := 0 to |rest|
      invariant |lists| == n && forall k :: 0 <= k < n ==> MatchList(env, tables, a, rest[k], lists[k])
    {
      var incoming := MatchOne(env, tables, a, rest[n]);
      if incoming.None? {
        return None;
      }
      lists := lists + [incoming.value];
    }
    r := Some(lists);
  }

  /** lookupMatchers: one lookup per matcher, intersected in the order they arrive; a lookup
      of the whole metric when there is no matcher. */
  method LookupMatchers(env: Env, tables: Tables, a: Ask, rest: seq<Matcher>) returns (r: Option<seq<Ref>>)
    requires env.Valid() && a.from <= a.through && Storage.Valid(tables)
    ensures r.Some? <==> AllServed(env, tables, a, rest)
    ensures r.Some? ==> InOrder(r.value)
    ensures r.Some? ==> forall ref :: ref in r.value <==> AllLookedUp(env, tables, a, rest, ref)
  {
    if |rest| == 0 {
      r := RunLookup(env, tables, a, ByMetric, None);
      return;
    }
    var lists := MatchEach(env, tables, a, rest);
    if lists.None? {
      return None;
    }
    var chunks := IntersectArrivals(lists.value);
    forall ref ensures InEvery(lists.value, ref) <==> AllLookedUp(env, tables, a, rest, ref) {
      EveryByIndex(lists.value, ref);
    }
    r := Some(chunks);
  }

  // -------------------------------------------------- answers

  datatype GetResult =
    | Chunks(chunks: seq<Chunk>)
    | ErrInvalidQuery
    | ErrMetricName
    | Panicked
    | ErrStorage

  /** What a query asks for: the user's chunks that have an instant in the interval and satisfy every
      matcher, a missing label counting as the empty value. */
  ghost predicate Answers(c: Chunk, user: Bytes, from: int, through: int, all: seq<Matcher>) {
    && c.ref.user == user && SharesInstant(c.ref, from, through)
    && forall k :: 0 <= k < |all| ==> all[k].Match(ValueOf(c.metric, all[k].name))
  }

  /** The query uses no identifier with a delimiter in it. */
  ghost predicate CleanQuery(user: Bytes, all: seq<Matcher>) {
    && Extract(NonFilters(all)).Name? && Free(user, COLON)
    && var x := Extract(NonFilters(all)); forall k :: 0 <= k < |x.rest| ==> GoodLabel(x.name, x.rest[k].name)
  }

  /** Only one matcher that is not a filter is on the metric name. */
  ghost predicate OneName(all: seq<Matcher>) {
    Extract(NonFilters(all)).Name?
    && forall k :: 0 <= k < |Extract(NonFilters(all)).rest| ==> Extract(NonFilters(all)).rest[k].name != METRIC_NAME
  }

  /** What the lookups of a query show: every matcher's, or that of the name when there is none. */
  ghost predicate ShownBy(env: Env, c: Chunk, a: Ask, rest: seq<Matcher>)
    requires env.Valid() && GoodChunk(c)
  {
    if rest == [] then NameShows(env, c, a) else forall k :: 0 <= k < |rest| ==> MatcherShows(env, c, a, rest[k])
  }

  /** What Get shows of the chunks in the store. */
  ghost predicate Shown(env: Env, c: Chunk, user: Bytes, from: int, through: int, all: seq<Matcher>)
    requires env.Valid() && GoodChunk(c) && Extract(NonFilters(all)).Name?
  {
    && c.ref.user == user && Overlaps(c.ref, from, through) && MatchesAll(c.metric, Filters(all))
    && ShownBy(env, c, Ask(user, Extract(NonFilters(all)).name, from, through), Extract(NonFilters(all)).rest)
  }

  predicate ChunkBefore(a: Chunk, b: Chunk) {
    Less(Key(a.ref), Key(b.ref))
  }

  lemma ChunkBeforeIsStrictOrder()
    ensures StrictOrder(ChunkBefore)
  {
    forall x: Chunk, y: Chunk, z: Chunk | Compared(x, y, z)
      ensures !ChunkBefore(x, x) && (ChunkBefore(x, y) && ChunkBefore(y, z) ==> ChunkBefore(x, z))
      ensures ChunkBefore(x, z) ==> ChunkBefore(x, y) || ChunkBefore(y, z)
    {
      LessOrder(Key(x.ref), Key(y.ref), Key(z.ref));
    }
  }

  /** The answer to a query on a store that holds all of `full` and at most `tried`: in key
      order, exactly what is shown. */
  ghost predicate Answered(env: Env, full: set<Chunk>, tried: set<Chunk>, user: Bytes, from: int, through: int,
                           all: seq<Matcher>, chunks: seq<Chunk>)
    requires env.Valid() && forall c :: c in tried ==> GoodChunk(c)
    requires full <= tried && Extract(NonFilters(all)).Name?
  {
    && Sorted(ChunkBefore, chunks)
    && (forall c :: c in chunks ==> c in tried && Shown(env, c, user, from, through, all))
    && (forall c :: c in full && Shown(env, c, user, from, through, all) ==> c in chunks)
  }

  /** A second matcher on the metric name, with schemas that change at midnight: nothing is shown. */
  lemma SecondNameShowsNothing(env: Env, full: set<Chunk>, tried: set<Chunk>, user: Bytes, from: int, through: int,
                               all: seq<Matcher>, chunks: seq<Chunk>)
    requires env.Valid() && (forall c :: c in tried ==> GoodChunk(c)) && full <= tried && CleanQuery(user, all)
    requires Answered(env, full, tried, user, from, through, all, chunks) && !OneName(all) && AtMidnight(env.schemas)
    ensures chunks == []
  {
    if chunks != [] {
      assert chunks[0] in chunks;
      SecondNameHides(env, chunks[0], Ask(user, Extract(NonFilters(all)).name, from, through), all);
    }
  }

  lemma SecondNameHides(env: Env, c: Chunk, a: Ask, all: seq<Matcher>)
    requires env.Valid() && GoodChunk(c) && CleanQuery(a.user, all) && !OneName(all) && AtMidnight(env.schemas)
    ensures !ShownBy(env, c, a, Extract(NonFilters(all)).rest)
  {
    var rest := Extract(NonFilters(all)).rest;
    var k :| 0 <= k < |rest| && rest[k].name == METRIC_NAME;
    NeverOld(env.schemas);
    assert !MatcherShows(env, c, a, rest[k]);
  }

  // -------------------------------------------------- the store

  /** Every tried chunk is in object storage under its key. */
  ghost predicate Stored(objects: map<Bytes, Chunk>, tried: set<Chunk>) {
    forall c :: c in tried ==> Key(c.ref) in objects && objects[Key(c.ref)] == c
  }

  /** The object under the key of a reference is there and is what the key says. */
  predicate Fetchable(objects: map<Bytes, Chunk>, ref: Ref) {
    Key(ref) in objects && objects[Key(ref)].ref == ref
  }

  ghost predicate DistinctRefs(chunks: seq<Chunk>) {
    forall i, j :: 0 <= i < j < |chunks| ==> chunks[i].ref != chunks[j].ref
  }

  /** fetchChunkData: the chunks behind references, in the order they arrive; None when one
      is missing or is not the chunk its key names. */
  method FetchChunkData(objects: map<Bytes, Chunk>, refs: seq<Ref>) returns (r: Option<seq<Chunk>>)
    requires Distinct(refs)
    ensures r.Some? <==> forall k :: 0 <= k < |refs| ==> Fetchable(objects, refs[k])
    ensures r.Some? ==> DistinctRefs(r.value)
    ensures r.Some? ==> forall c: Chunk :: c in r.value <==>
              c.ref in refs && Key(c.ref) in objects && objects[Key(c.ref)] == c
  {
    var chunks: seq<Chunk> := [];
    for n := 0 to |refs|
      invariant |chunks| == n
      invariant forall k :: 0 <= k < n ==> Fetchable(objects, refs[k]) && chunks[k] == objects[Key(refs[k])]
    {
      if !Fetchable(objects, refs[n]) {
        return None;
      }
      chunks := chunks + [objects[Key(refs[n])]];
    }
    var arrived := Arrivals(chunks);
    FetchedChunks(objects, refs, chunks);
    ArrivedDistinct(chunks, arrived);
    r := Some(arrived);
  }

  lemma FetchedChunks(objects: map<Bytes, Chunk>, refs: seq<Ref>, chunks: seq<Chunk>)
    requires Distinct(refs) && |chunks| == |refs|
    requires forall k :: 0 <= k < |refs| ==> Fetchable(objects, refs[k]) && chunks[k] == objects[Key(refs[k])]
    ensures DistinctRefs(chunks)
    ensures forall c: Chunk :: c in chunks <==> c.ref in refs && Key(c.ref) in objects && objects[Key(c.ref)] == c
  {
    forall k | 0 <= k < |refs| ensures chunks[k].ref == refs[k] {
    }
    forall c: Chunk | c.ref in refs && objects[Key(c.ref)] == c ensures c in chunks {
      var k :| 0 <= k < |refs| && refs[k] == c.ref;
      assert chunks[k] == c;
    }
  }

  lemma ArrivedDistinct(chunks: seq<Chunk>, arrived: seq<Chunk>)
    requires DistinctRefs(chunks) && multiset(arrived) == multiset(chunks) && forall c :: c in arrived <==> c in chunks
    ensures DistinctRefs(arrived)
  {
    PermutationIsDistinct(chunks, arrived);
    forall i, j | 0 <= i < j < |arrived| ensures arrived[i].ref != arrived[j].ref {
      assert arrived[i] in chunks && arrived[j] in chunks;
    }
  }

  /** The overlap loop of Get. */
  method KeepOverlapping(refs: seq<Ref>, from: int, through: int) returns (r: seq<Ref>)
    requires InOrder(refs)
    ensures InOrder(r)
    ensures forall c :: c in r <==> c in refs && Overlaps(c, from, through)
  {
    r := [];
    for n := 0 to |refs|
      invariant InOrder(r)
      invariant forall c :: c in r <==> c in refs[..n] && Overlaps(c, from, through)
    {
      assert refs[..n + 1] == refs[..n] + [refs[n]];
      if Overlaps(refs[n], from, through) {
        SortedAppend(Before, r, refs[n]);
        r := r + [refs[n]];
      }
    }
    assert refs[..|refs|] == refs;
  }

  /** `sort.Sort(ByKey(allChunks))`. */
  method SortChunks(chunks: seq<Chunk>) returns (r: seq<Chunk>)
    requires DistinctRefs(chunks)
    ensures Sorted(ChunkBefore, r) && forall c :: c in r <==> c in chunks
  {
    ChunkBeforeIsStrictOrder();
    r := Sort(ChunkBefore, chunks);
    ArrivedDistinct(chunks, r);
    forall i, j | 0 <= i < j < |r| ensures ChunkBefore(r[i], r[j]) {
      assert r[i] in chunks && r[j] in chunks;
      SameIsEqual(r[i].ref, r[j].ref);
    }
  }

  /** The filter loop at the end of Get. */
  method KeepMatching(chunks: seq<Chunk>, filters: seq<Matcher>) returns (r: seq<Chunk>)
    requires Sorted(ChunkBefore, chunks)
    ensures Sorted(ChunkBefore, r)
    ensures forall c :: c in r <==> c in chunks && MatchesAll(c.metric, filters)
  {
    r := [];
    for n := 0 to |chunks|
      invariant Sorted(ChunkBefore, r)
      invariant forall c :: c in r <==> c in chunks[..n] && MatchesAll(c.metric, filters)
    {
      assert chunks[..n + 1] == chunks[..n] + [chunks[n]];
      if MatchesAll(chunks[n].metric, filters) {
        SortedAppend(ChunkBefore, r, chunks[n]);
        r := r + [chunks[n]];
      }
    }
    assert chunks[..|chunks|] == chunks;
  }

  /** The rows of a list of chunks. */
  ghost predicate IndexesSome(env: Env, chunks: seq<Chunk>, e: Entry)
    requires env.Valid() && forall k :: 0 <= k < |chunks| ==> GoodChunk(chunks[k])
  {
    exists k :: 0 <= k < |chunks| && Indexes(env, chunks[k], e)
  }

  /** The write entries of one chunk, bucket by bucket. */
  method EntriesOfChunk(env: Env, c: Chunk) returns (r: Option<seq<Entry>>)
    requires env.Valid() && GoodChunk(c)
    ensures r.None? <==> Unwritable(env, c)
    ensures r.Some? ==> forall e :: e in r.value <==> Indexes(env, c, e)
    ensures r.Some? ==> (NoClash(r.value) <==> Clear(env, c))
  {
    var bs := VisitBuckets(env.cfg, env.schemas, c.ref.user, c.metric[METRIC_NAME], c.ref.from, c.ref.through);
    r := EntriesOfBuckets(bs, c.metric, Key(c.ref));
    assert bs == BucketsOfChunk(env, c) && bs[..|bs|] == bs;
    assert Unwritable(env, c) <==> exists b :: b in bs && WriteRefused(b, c.metric);
    assert forall e :: Indexes(env, c, e) <==> exists b :: b in bs && e in WriteRows(b, c.metric, Key(c.ref));
  }

  /** calculateDynamoWrites: the entries of all chunks, or None for a chunk without a metric
      name or with labels its schema refuses. */
  method CalculateWrites(env: Env, chunks: seq<Chunk>) returns (r: Option<seq<Entry>>)
    requires env.Valid() && forall k :: 0 <= k < |chunks| && METRIC_NAME in chunks[k].metric ==> GoodChunk(chunks[k])
    ensures r.None? <==> exists k :: 0 <= k < |chunks|
                           && (METRIC_NAME in chunks[k].metric ==> Unwritable(env, chunks[k]))
    ensures r.Some? ==> forall k :: 0 <= k < |chunks| ==> GoodChunk(chunks[k]) && !Unwritable(env, chunks[k])
    ensures r.Some? ==> forall e :: e in r.value <==> IndexesSome(env, chunks, e)
    ensures r.Some? ==> (NoClash(r.value) <==> AllClear(env, chunks, |chunks|))
  {
    var entries: seq<Entry> := [];
    for n := 0 to |chunks|
      invariant Collected(env, chunks, n, entries)
      invariant NoClash(entries) <==> AllClear(env, chunks, n)
    {
      if METRIC_NAME !in chunks[n].metric {
        return None;
      }
      var more := EntriesOfChunk(env, chunks[n]);
      if more.None? {
        return None;
      }
      PlacesOneMore(env, chunks, n, entries, more.value);
      CollectedOneMore(env, chunks, n, entries, more.value);
      entries := entries + more.value;
    }
    CollectedMeans(env, chunks, entries);
    r := Some(entries);
  }

  ghost predicate Writable(env: Env, c: Chunk)
    requires env.Valid()
  {
    METRIC_NAME in c.metric && GoodChunk(c) && !Unwritable(env, c)
  }

  /** The entry is a row of one of the first chunks. */
  ghost predicate IndexesBelow(env: Env, chunks: seq<Chunk>, n: nat, e: Entry)
    requires env.Valid() && n <= |chunks|
  {
    exists k :: 0 <= k < n && IsRowOf(env, chunks[k], e)
  }

  ghost predicate IsRowOf(env: Env, c: Chunk, e: Entry)
    requires env.Valid()
  {
    GoodChunk(c) && Indexes(env, c, e)
  }

  /** The first chunks can be written, and the list has exactly their rows. */
  ghost predicate Collected(env: Env, chunks: seq<Chunk>, n: nat, entries: seq<Entry>)
    requires env.Valid() && n <= |chunks|
  {
    && (forall k :: 0 <= k < n ==> Writable(env, chunks[k]))
    && forall e :: e in entries <==> IndexesBelow(env, chunks, n, e)
  }

  /** The first chunks have rows in different places. */
  ghost predicate AllClear(env: Env, chunks: seq<Chunk>, n: nat)
    requires env.Valid() && n <= |chunks|
  {
    AllApart(chunks, n, (c: Chunk) => Clear(env, c), (c: Chunk, d: Chunk) => Meets(env, c, d))
  }

  /** The first elements are good, and no two of them are bad together. */
  ghost predicate AllApart<T>(s: seq<T>, n: nat, good: T -> bool, bad: (T, T) -> bool)
    requires n <= |s|
  {
    (forall k :: 0 <= k < n ==> good(s[k])) && (forall j, k :: 0 <= j < k < n ==> !bad(s[j], s[k]))
  }

  lemma ApartOneMore<T>(s: seq<T>, n: nat, good: T -> bool, bad: (T, T) -> bool)
    requires n < |s|
    ensures AllApart(s, n + 1, good, bad) <==>
            AllApart(s, n, good, bad) && good(s[n]) && forall k :: 0 <= k < n ==> !bad(s[k], s[n])
  {
  }

  lemma PlacesOneMore(env: Env, chunks: seq<Chunk>, n: nat, entries: seq<Entry>, more: seq<Entry>)
    requires env.Valid() && n < |chunks| && Collected(env, chunks, n, entries) && Writable(env, chunks[n])
    requires forall e :: e in more <==> Indexes(env, chunks[n], e)
    requires NoClash(entries) <==> AllClear(env, chunks, n)
    requires NoClash(more) <==> Clear(env, chunks[n])
    ensures NoClash(entries + more) <==> AllClear(env, chunks, n + 1)
  {
    NoClashAppend(entries, more);
    ClashIffMeets(env, chunks, n, entries, more);
    ApartOneMore(chunks, n, (c: Chunk) => Clear(env, c), (c: Chunk, d: Chunk) => Meets(env, c, d));
  }

  lemma ClashIffMeets(env: Env, chunks: seq<Chunk>, n: nat, entries: seq<Entry>, more: seq<Entry>)
    requires env.Valid() && n < |chunks| && Collected(env, chunks, n, entries) && Writable(env, chunks[n])
    requires forall e :: e in more <==> Indexes(env, chunks[n], e)
    ensures Clash(entries, more) <==> !forall k :: 0 <= k < n ==> !Meets(env, chunks[k], chunks[n])
  {
    if Clash(entries, more) {
      var i, j :| 0 <= i < |entries| && 0 <= j < |more| && SamePlace(entries[i], more[j]);
      assert entries[i] in entries && more[j] in more;
      var k :| 0 <= k < n && IsRowOf(env, chunks[k], entries[i]);
      assert Meets(env, chunks[k], chunks[n]);
    }
    if k :| 0 <= k < n && Meets(env, chunks[k], chunks[n]) {
      var e, f :| Indexes(env, chunks[k], e) && Indexes(env, chunks[n], f) && SamePlace(e, f);
      assert IsRowOf(env, chunks[k], e);
      assert IndexesBelow(env, chunks, n, e) && e in entries && f in more;
      var i :| 0 <= i < |entries| && entries[i] == e;
      var j :| 0 <= j < |more| && more[j] == f;
      assert Clash(entries, more);
    }
  }

  lemma CollectedMeans(env: Env, chunks: seq<Chunk>, entries: seq<Entry>)
    requires env.Valid() && Collected(env, chunks, |chunks|, entries)
    ensures forall k :: 0 <= k < |chunks| ==> METRIC_NAME in chunks[k].metric && GoodChunk(chunks[k]) && !Unwritable(env, chunks[k])
    ensures forall e :: e in entries <==> IndexesSome(env, chunks, e)
  {
    assert forall k :: 0 <= k < |chunks| ==> Writable(env, chunks[k]);
    forall e ensures IndexesBelow(env, chunks, |chunks|, e) <==> IndexesSome(env, chunks, e) {
      if IndexesSome(env, chunks, e) {
        var k :| 0 <= k < |chunks| && Indexes(env, chunks[k], e);
        assert IsRowOf(env, chunks[k], e);
      }
    }
  }

  lemma CollectedOneMore(env: Env, chunks: seq<Chunk>, n: nat, entries: seq<Entry>, more: seq<Entry>)
    requires env.Valid() && n < |chunks| && Collected(env, chunks, n, entries) && Writable(env, chunks[n])
    requires forall e :: e in more <==> Indexes(env, chunks[n], e)
    ensures Collected(env, chunks, n + 1, entries + more)
  {
    forall e ensures e in more <==> IsRowOf(env, chunks[n], e) {
    }
    BelowOneMore(env, chunks, n);
  }

  lemma BelowOneMore(env: Env, chunks: seq<Chunk>, n: nat)
    requires env.Valid() && n < |chunks|
    ensures forall e :: IndexesBelow(env, chunks, n + 1, e) <==> IndexesBelow(env, chunks, n, e) || IsRowOf(env, chunks[n], e)
  {
  }

  /** Chunks can be put exactly when the batch with their rows is acceptable. */
  lemma PuttableIff(env: Env, tables: Tables, chunks: seq<Chunk>, batch: seq<Entry>)
    requires env.Valid() && forall k :: 0 <= k < |chunks| ==> GoodChunk(chunks[k]) && !Unwritable(env, chunks[k])
    requires forall e :: e in batch <==> IndexesSome(env, chunks, e)
    requires NoClash(batch) <==> AllClear(env, chunks, |chunks|)
    ensures Acceptable(tables, batch) <==> Puttable(env, tables, chunks)
  {
    if Puttable(env, tables, chunks) {
      forall n | 0 <= n < |batch| ensures !Refused(tables, batch[n]) {
        assert batch[n] in batch;
        var k :| 0 <= k < |chunks| && Indexes(env, chunks[k], batch[n]);
        assert Placeable(env, tables, chunks[k]);
      }
    }
    if Acceptable(tables, batch) {
      forall k | 0 <= k < |chunks| ensures Placeable(env, tables, chunks[k]) {
        forall e | Indexes(env, chunks[k], e) ensures !Refused(tables, e) {
          assert IndexesSome(env, chunks, e) && e in batch;
        }
      }
    }
  }

  /** A successful or failed batch keeps the index consistent with the chunks tried. */
  lemma BatchKeepsConsistent(env: Env, before: Tables, after: Tables, full: set<Chunk>, tried: set<Chunk>,
                             chunks: seq<Chunk>, batch: seq<Entry>, ok: bool)
    requires env.Valid() && Consistent(env, before, full, tried)
    requires forall k :: 0 <= k < |chunks| ==> GoodChunk(chunks[k]) && !Unwritable(env, chunks[k])
    requires forall e :: e in batch <==> IndexesSome(env, chunks, e)
    requires BatchWritten(before, batch, after, ok)
    ensures var news := set c | c in chunks;
            Consistent(env, after, if ok then full + news else full, tried + news)
  {
    var news := set c | c in chunks;
    forall e | Holds(after, e) ensures exists c :: c in tried + news && !Unwritable(env, c) && Indexes(env, c, e) {
      if !Holds(before, e) {
        var k :| 0 <= k < |chunks| && Indexes(env, chunks[k], e);
        assert chunks[k] in tried + news;
      }
    }
    if ok {
      forall c, e | c in full + news && Indexes(env, c, e) ensures Holds(after, e) {
        if c !in full {
          var k :| 0 <= k < |chunks| && chunks[k] == c;
          assert IndexesSome(env, chunks, e);
        }
      }
    }
  }

  /** What a query looks up was tried. */
  lemma LookupAnswers(env: Env, tables: Tables, full: set<Chunk>, tried: set<Chunk>, a: Ask, all: seq<Matcher>, ref: Ref)
    requires env.Valid() && Consistent(env, tables, full, tried) && CleanQuery(a.user, all) && a.from <= a.through
    requires Extract(NonFilters(all)).name == a.name
    requires AllLookedUp(env, tables, a, Extract(NonFilters(all)).rest, ref)
    ensures (exists c :: c in tried && c.ref == ref && c.ref.user == a.user) && Free(a.user, SLASH)
  {
    var rest := Extract(NonFilters(all)).rest;
    if rest == [] {
      var c := LookedUpIsTried(env, tables, full, tried, a, ByMetric, None, ref);
    } else {
      var c := LookedUpIsTried(env, tables, full, tried, a, LookupFor(rest[0]), Some(rest[0]), ref);
    }
  }

  lemma RestIsNonFilter(all: seq<Matcher>, k: nat)
    requires Extract(NonFilters(all)).Name? && k < |Extract(NonFilters(all)).rest|
    ensures !Extract(NonFilters(all)).rest[k].IsFilter()
  {
    var ms := NonFilters(all);
    var i := FirstName(ms);
    assert Extract(ms).rest[k] == if k < i then ms[k] else ms[k + 1];
  }

  /** A chunk in the store that is looked up and overlaps the query is shown by every lookup. */
  lemma LookedUpIsShown(env: Env, tables: Tables, full: set<Chunk>, tried: set<Chunk>, objects: map<Bytes, Chunk>,
                        a: Ask, all: seq<Matcher>, c: Chunk)
    requires env.Valid() && Consistent(env, tables, full, tried) && Stored(objects, tried)
    requires CleanQuery(a.user, all) && a.from <= a.through && Extract(NonFilters(all)).name == a.name
    requires c in tried && Overlaps(c.ref, a.from, a.through)
    requires AllLookedUp(env, tables, a, Extract(NonFilters(all)).rest, c.ref)
    ensures ShownBy(env, c, a, Extract(NonFilters(all)).rest)
  {
    var rest := Extract(NonFilters(all)).rest;
    if rest == [] {
      var d := LookupIsSound(env, tables, full, tried, a, ByMetric, None, c.ref);
      assert objects[Key(c.ref)] == c && objects[Key(d.ref)] == d;
    } else {
      forall k | 0 <= k < |rest| ensures MatcherShows(env, c, a, rest[k]) {
        RestIsNonFilter(all, k);
        var d := LookupIsSound(env, tables, full, tried, a, LookupFor(rest[k]), Some(rest[k]), c.ref);
        assert objects[Key(c.ref)] == c && objects[Key(d.ref)] == d;
      }
    }
  }

  /** A put chunk that every lookup shows is looked up. */
  lemma ShownIsLookedUp(env: Env, tables: Tables, full: set<Chunk>, tried: set<Chunk>, a: Ask, all: seq<Matcher>, c: Chunk)
    requires env.Valid() && Consistent(env, tables, full, tried)
    requires CleanQuery(a.user, all) && a.from <= a.through && Extract(NonFilters(all)).name == a.name
    requires c in full && c.ref.user == a.user && Overlaps(c.ref, a.from, a.through)
    requires ShownBy(env, c, a, Extract(NonFilters(all)).rest)
    requires AllServed(env, tables, a, Extract(NonFilters(all)).rest)
    ensures AllLookedUp(env, tables, a, Extract(NonFilters(all)).rest, c.ref)
  {
    var rest := Extract(NonFilters(all)).rest;
    if rest == [] {
      MetricLookupIsComplete(env, tables, full, tried, a, c);
    } else {
      forall k | 0 <= k < |rest| ensures LookedUp(env, tables, a, LookupFor(rest[k]), Some(rest[k]), c.ref) {
        LabelLookupIsComplete(env, tables, full, tried, a, rest[k], c);
      }
    }
  }

  /** The store. `tried` is every chunk that a Put got as far as indexing, `full` those whose
      Put succeeded. */
  class Store {
    const env: Env
    const storage: MockStorage
    var objects: map<Bytes, Chunk>
    ghost var full: set<Chunk>
    ghost var tried: set<Chunk>

    ghost predicate Valid()
      reads this, storage
    {
      && env.Valid() && Storage.Valid(storage.tables)
      && Consistent(env, storage.tables, full, tried)
      && Stored(objects, tried)
    }

    constructor (env: Env, storage: MockStorage)
      requires env.Valid() && Storage.Valid(storage.tables) && forall e :: !Holds(storage.tables, e)
      ensures Valid() && full == {} && tried == {} && this.env == env && this.storage == storage
    {
      this.env, this.storage := env, storage;
      objects := map[];
      full, tried := {}, {};
    }

    /** Put, for chunks of one user whose keys do not repeat. */
    method Put(chunks: seq<Chunk>) returns (ok: bool)
      requires Valid()
      requires forall k :: 0 <= k < |chunks| && METRIC_NAME in chunks[k].metric ==> GoodChunk(chunks[k])
      requires forall c, k :: 0 <= k < |chunks| && (c in tried || c in chunks) && c.ref == chunks[k].ref ==> c == chunks[k]
      modifies this, storage
      ensures Valid()
      ensures ok ==> full == old(full) + (set c | c in chunks) && tried == old(tried) + (set c | c in chunks)
      ensures !ok ==> full == old(full) && old(tried) <= tried <= old(tried) + (set c | c in chunks)
      ensures ok <==> Puttable(env, old(storage.tables), chunks)
      ensures storage.tables.Keys == old(storage.tables.Keys)
    {
      for n := 0 to |chunks|
        invariant storage.tables == old(storage.tables) && full == old(full) && tried == old(tried)
        invariant Stored(objects, tried)
        invariant forall k :: 0 <= k < n ==> Key(chunks[k].ref) in objects && objects[Key(chunks[k].ref)] == chunks[k]
      {
        forall c: Chunk | c in tried || c in chunks
          ensures Key(c.ref) == Key(chunks[n].ref) ==> c == chunks[n]
        {
          if Key(c.ref) == Key(chunks[n].ref) {
            KeyInjective(c.ref, chunks[n].ref);
          }
        }
        objects := objects[Key(chunks[n].ref) := chunks[n]];
      }
      var batch := CalculateWrites(env, chunks);
      if batch.None? {
        return false;
      }
      PuttableIff(env, storage.tables, chunks, batch.value);
      ok := storage.BatchWrite(batch.value);
      ghost var news := set c | c in chunks;
      BatchKeepsConsistent(env, old(storage.tables), storage.tables, full, tried, chunks, batch.value, ok);
      full := if ok then full + news else full;
      tried := tried + news;
    }

    /** Get: in key order, exactly the chunks of the store that its lookups show; how these differ
        from the chunks that answer the query is for Exactness to say. */
    method Get(user: Bytes, from: int, through: int, all: seq<Matcher>) returns (r: GetResult)
      requires Valid()
      ensures through < from <==> r == ErrInvalidQuery
      ensures from <= through ==> (r == GetResult.Panicked <==> NonFilters(all) == [])
      ensures from <= through ==> (r == ErrMetricName <==> Extract(NonFilters(all)) in {ErrNoName, ErrNotEquality})
      ensures r.Chunks? && CleanQuery(user, all) ==> Answered(env, full, tried, user, from, through, all, r.chunks)
      ensures r.Chunks? && CleanQuery(user, all) && !OneName(all) && AtMidnight(env.schemas) ==> r.chunks == []
      ensures r.Chunks? && CleanQuery(user, all) && !Free(user, SLASH) ==> r.chunks == []
      ensures from <= through && CleanQuery(user, all) ==>
                (r.Chunks? <==> AllServed(env, storage.tables, Ask(user, Extract(NonFilters(all)).name, from, through),
                                          Extract(NonFilters(all)).rest))
    {
      if through < from {
        return ErrInvalidQuery;
      }
      var filters, matchers := SplitFiltersAndMatchers(all);
      var extracted := ExtractMetricNameFromMatchers(matchers);
      match extracted {
        case Panicked => return GetResult.Panicked;
        case ErrNoName => return ErrMetricName;
        case ErrNotEquality => return ErrMetricName;
        case Name(name, rest) =>
          var a := Ask(user, name, from, through);
          var refs := LookupMatchers(env, storage.tables, a, rest);
          if refs.None? {
            return ErrStorage;
          }
          r := FetchAndFilter(a, all, refs.value);
          if CleanQuery(user, all) && !OneName(all) && AtMidnight(env.schemas) {
            SecondNameShowsNothing(env, full, tried, user, from, through, all, r.chunks);
          }
      }
    }

    /** The second half of Get: drop what does not overlap, fetch, sort and filter. */
    method FetchAndFilter(a: Ask, all: seq<Matcher>, refs: seq<Ref>) returns (r: GetResult)
      requires Valid() && a.from <= a.through && InOrder(refs)
      requires Extract(NonFilters(all)).Name? && Extract(NonFilters(all)).name == a.name
      requires forall ref :: ref in refs <==> AllLookedUp(env, storage.tables, a, Extract(NonFilters(all)).rest, ref)
      requires AllServed(env, storage.tables, a, Extract(NonFilters(all)).rest)
      ensures r.Chunks? || r == ErrStorage
      ensures CleanQuery(a.user, all) ==> r.Chunks? && Answered(env, full, tried, a.user, a.from, a.through, all, r.chunks)
      ensures CleanQuery(a.user, all) && !Free(a.user, SLASH) ==> r.chunks == []
    {
      var overlapping := KeepOverlapping(refs, a.from, a.through);
      InOrderIsDistinct(overlapping);
      if CleanQuery(a.user, all) {
        forall ref: Ref | ref in refs ensures Key(ref) in objects && objects[Key(ref)] in tried
          && objects[Key(ref)].ref == ref && ref.user == a.user && Free(a.user, SLASH)
        {
          LookupAnswers(env, storage.tables, full, tried, a, all, ref);
        }
      }
      var fetched := FetchChunkData(objects, overlapping);
      if fetched.None? {
        return ErrStorage;
      }
      var sorted := SortChunks(fetched.value);
      var filters := Filters(all);
      var kept := KeepMatching(sorted, filters);
      r := Chunks(kept);
      if CleanQuery(a.user, all) {
        forall c: Chunk | c in kept ensures c in tried && Shown(env, c, a.user, a.from, a.through, all) {
          LookedUpIsShown(env, storage.tables, full, tried, objects, a, all, c);
        }
        forall c: Chunk | c in full && Shown(env, c, a.user, a.from, a.through, all) ensures c in kept {
          ShownIsLookedUp(env, storage.tables, full, tried, a, all, c);
          assert c.ref in overlapping;
          assert objects[Key(c.ref)] == c;
        }
        if kept != [] {
          assert kept[0] in kept && kept[0].ref in refs;
        }
      }
    }
  }
}
